/** The restore: a reader that steps through the archive and rebuilds one partition's nodes. */
module Restore {
  import opened ByteStrings
  import opened PfsTree
  import opened UstarHeader
  import Calendar
  import Modes
  import Octal

  // ----- the mounted partition, as far as the reader uses it -----

  datatype Inode =
    | DirNode(mode: nat, mtime: Stamp)
    | FileNode(mode: nat, mtime: Stamp, data: Bytes)
    | LinkNode(target: Bytes)

  /** The nodes below the root; the root itself is always there. */
  type Fs = map<Place, Inode>

  predicate Exists(fs: Fs, p: Place) { p == [] || p in fs }

  predicate IsDir(fs: Fs, p: Place) { p == [] || (p in fs && fs[p].DirNode?) }

  /** A new node needs a free name in an existing directory. */
  predicate CanCreate(fs: Fs, p: Place) { p != [] && p !in fs && IsDir(fs, p[..|p| - 1]) }

  /** iomanX_mkdir(path, 0777) */
  function Mkdir(fs: Fs, path: Bytes, clock: Stamp): Fs
  {
    var p := PlaceOf(path);
    if CanCreate(fs, p) then fs[p := DirNode(4096 * Modes.FIO_DIR + 0x1FF, clock)] else fs
  }

  /** iomanX_symlink */
  function Symlink(fs: Fs, target: Bytes, path: Bytes): Fs
  {
    var p := PlaceOf(path);
    if CanCreate(fs, p) then fs[p := LinkNode(target)] else fs
  }

  /** iomanX_open(path, FIO_O_WRONLY | FIO_O_CREAT | FIO_O_TRUNC, 0666) succeeds on a new name or a file. */
  predicate CanOpen(fs: Fs, p: Place) { CanCreate(fs, p) || (p in fs && fs[p].FileNode?) }

  function Truncated(fs: Fs, p: Place, clock: Stamp): (r: Fs)
    requires CanOpen(fs, p)
    ensures p in r && r[p].FileNode?
  {
    if p in fs then fs[p := fs[p].(data := [])]
    else fs[p := FileNode(4096 * Modes.FIO_REG + 0x1B6, clock, [])]
  }

  function Appended(fs: Fs, p: Place, s: Bytes): (r: Fs)
    requires p in fs && fs[p].FileNode?
    ensures p in r && r[p].FileNode?
  {
    fs[p := fs[p].(data := fs[p].data + s)]
  }

  /** iomanX_chstat with FIO_CST_MODE keeps the kind of the node, and fails where there is none. */
  function ChangeMode(fs: Fs, path: Bytes, mode: nat): Fs
  {
    var p := PlaceOf(path);
    if p in fs && !fs[p].LinkNode? then
      fs[p := fs[p].(mode := 4096 * Modes.Kind(fs[p].mode) + Modes.Permissions(mode))]
    else fs
  }

  /** iomanX_chstat with the three time flags. */
  function ChangeTimes(fs: Fs, path: Bytes, mtime: Stamp): Fs
  {
    var p := PlaceOf(path);
    if p in fs && !fs[p].LinkNode? then fs[p := fs[p].(mtime := mtime)] else fs
  }

  // ----- what the reader does, as functions -----

  type Block = b: Bytes | |b| == BLOCK witness Zeros(BLOCK)

  /** What the uninitialised buffer of a copy happens to hold, by file position and number of bytes still to copy. */
  type Junk = (nat, nat) -> Block

  /** Settings of one restore. */
  datatype Options = Options(prefix: Bytes, overwrite: bool, clock: Stamp, junk: Junk)

  function NameIn(h: Bytes): (r: Bytes)
    requires |h| == BLOCK
    ensures NUL !in r
  {
    CStr(h[NAME..MODE])
  }

  function SizeIn(h: Bytes): nat
    requires |h| == BLOCK
  {
    U32(Octal.StrToL(CStr(h[SIZE..MTIME])))
  }

  function ModeIn(h: Bytes): nat
    requires |h| == BLOCK
  {
    Modes.ModeFromField(h[MODE..108])
  }

  function MtimeIn(h: Bytes): Stamp
    requires |h| == BLOCK
  {
    Calendar.StampFromField(h[MTIME..CHK])
  }

  function LinkIn(h: Bytes): Bytes
    requires |h| == BLOCK
  {
    CStr(h[LINK..MAGIC])
  }

  /** ((size + 511) / 512) * 512 in unsigned arithmetic. */
  function SkipLength(size: nat): nat { U32(size + 511) / 512 * 512 }

  /** snprintf(full_path, 512, "%s%s", "pfs0:/", rel) */
  function FullPath(rel: Bytes): (r: Bytes)
    ensures |r| < BLOCK
    ensures |rel| > 0 ==> |r| > |ROOT|
    ensures NUL !in rel ==> NUL !in r
  {
    var s := ROOT + rel;
    if |s| < BLOCK then s else s[..BLOCK - 1]
  }

  /** ensure_parent_dirs_exist from character k on: every slash ends the name of a directory to make. */
  function MakeParents(fs: Fs, tmp: Bytes, k: nat, clock: Stamp): Fs
    requires k <= |tmp|
    decreases |tmp| - k
  {
    if k == |tmp| then fs
    else MakeParents(if tmp[k] == SLASH then Mkdir(fs, tmp[..k], clock) else fs, tmp, k + 1, clock)
  }

  /** strncpy into 256 bytes, the last one forced to NUL. */
  function Clipped(path: Bytes): (r: Bytes)
    ensures |r| < 256 && r <= path
    ensures |path| > |ROOT| ==> |r| > |ROOT|
    ensures |path| < 256 ==> r == path
  {
    if |path| < 256 then path else path[..255]
  }

  function EnsureParents(fs: Fs, path: Bytes, clock: Stamp): Fs
    requires |path| > |ROOT|
  {
    MakeParents(fs, Clipped(path), |ROOT|, clock)
  }

  /** fread: n bytes from pos on, fewer where the archive ends. */
  function Fread(tar: Bytes, pos: nat, n: nat): (r: Bytes)
    ensures |r| <= n
    ensures pos + n <= |tar| ==> r == tar[pos..pos + n]
  {
    if pos >= |tar| then [] else if pos + n <= |tar| then tar[pos..pos + n] else tar[pos..]
  }

  datatype Data = Data(bytes: Bytes, pos: nat)

  /** The read loop over size bytes, a block at a time; where the archive ends early the buffer keeps its junk. */
  function ReadData(tar: Bytes, pos: nat, size: nat, junk: Junk): (r: Data)
    ensures |r.bytes| == size && pos <= r.pos <= pos + size
    decreases size
  {
    if size == 0 then Data([], pos)
    else
      var chunk := if size > BLOCK then BLOCK else size;
      var got := Fread(tar, pos, chunk);
      var rest := ReadData(tar, pos + |got|, size - chunk, junk);
      Data(got + junk(pos, size)[|got|..chunk] + rest.bytes, rest.pos)
  }

  /** Where a step of the reader leaves the partition and the archive. */
  datatype State = State(fs: Fs, pos: nat)

  function RestoreDir(fs: Fs, full: Bytes, h: Bytes, clock: Stamp): Fs
    requires |h| == BLOCK && |full| > |ROOT|
  {
    var fs := Mkdir(EnsureParents(fs, full, clock), full, clock);
    ChangeTimes(ChangeMode(fs, full, ModeIn(h)), full, MtimeIn(h))
  }

  function RestoreFile(tar: Bytes, st: State, full: Bytes, h: Bytes, o: Options): (r: State)
    requires |h| == BLOCK && |full| > |ROOT|
    ensures r.pos >= st.pos
  {
    var p := PlaceOf(full);
    var size := SizeIn(h);
    var fs := EnsureParents(st.fs, full, o.clock);
    if !CanOpen(fs, p) then State(fs, st.pos + SkipLength(size))
    else
      var data := ReadData(tar, st.pos, size, o.junk);
      var fs := Appended(Truncated(fs, p, o.clock), p, data.bytes);
      State(ChangeTimes(ChangeMode(fs, full, ModeIn(h)), full, MtimeIn(h)),
            data.pos + if size % 512 != 0 then 512 - size % 512 else 0)
  }

  /** One turn of the loop: st.pos is behind the header h. */
  function RestoreEntry(tar: Bytes, st: State, h: Bytes, o: Options): (r: State)
    requires |h| == BLOCK
    ensures r.pos >= st.pos
  {
    var name := NameIn(h);
    var skipped := State(st.fs, st.pos + SkipLength(SizeIn(h)));
    if name == [] then st
    else if !(o.prefix <= name) then skipped
    else
      var rel := name[|o.prefix|..];
      if rel == [] then skipped
      else
        var full := FullPath(rel);
        if !o.overwrite && Exists(st.fs, PlaceOf(full)) then skipped
        else if h[TYPE] == DIRECTORY then State(RestoreDir(st.fs, full, h, o.clock), st.pos)
        else if h[TYPE] == SYMLINK then
          State(Symlink(EnsureParents(st.fs, full, o.clock), LinkIn(h), full), st.pos)
        else if h[TYPE] == REGULAR || h[TYPE] == NUL then RestoreFile(tar, st, full, h, o)
        else skipped
  }

  /** A whole restore: the partition it leaves, and the positions at which the loop looked for a header. */
  datatype Run = Run(fs: Fs, heads: seq<nat>)

  function RestoreFrom(tar: Bytes, pos: nat, fs: Fs, o: Options): Run
    decreases |tar| + BLOCK - pos
  {
    if pos + BLOCK > |tar| || tar[pos] == NUL then Run(fs, [pos])
    else
      var st := RestoreEntry(tar, State(fs, pos + BLOCK), tar[pos..pos + BLOCK], o);
      var rest := RestoreFrom(tar, st.pos, st.fs, o);
      Run(rest.fs, [pos] + rest.heads)
  }

  // ----- the code -----

  class Reader {
    const tar: Bytes    // the archive
    var pos: nat        // its file position
    var fs: Fs          // the mounted partition

    constructor (tar: Bytes, fs: Fs)
      ensures this.tar == tar && this.fs == fs && pos == 0
    {
      this.tar, this.fs, pos := tar, fs, 0;
    }

    /** ensure_parent_dirs_exist: cuts its copy of the path at each slash in turn. */
    method EnsureParentDirsExist(path: Bytes, clock: Stamp)
      requires |path| > |ROOT| && NUL !in path
      modifies this`fs
      ensures fs == EnsureParents(old(fs), path, clock)
    {
      hide Mkdir, CStr, Pad, Clipped;
      var tmp := new byte[256](_ => NUL);
      assert tmp[..] == seq(256, _ => NUL);
      ghost var s := Clipped(path);
      Put(tmp, 0, Clipped(path));
      PadIsSplice(s);
      var k := |ROOT|;
      while tmp[k] != NUL
        invariant |ROOT| <= k <= |s|
        invariant tmp[..] == Pad(s, 256)
        invariant MakeParents(fs, s, k, clock) == EnsureParents(old(fs), path, clock)
        decreases |s| - k
      {
        if tmp[k] == SLASH {
          tmp[k] := NUL;
          CutString(s, k);
          assert tmp[..] == Pad(s, 256)[k := NUL];
          fs := Mkdir(fs, CStr(tmp[..]), clock);
          tmp[k] := SLASH;
          assert Pad(s, 256)[k := NUL][k := SLASH] == Pad(s, 256);
        }
        k := k + 1;
      }
    }

    static lemma PadIsSplice(s: Bytes)
      requires |s| < 256
      ensures Splice(seq(256, _ => NUL), 0, s) == Pad(s, 256)
    {
    }

    static lemma CutString(s: Bytes, k: nat)
      requires k < |s| < 256 && NUL !in s
      ensures CStr(Pad(s, 256)[k := NUL]) == s[..k]
    {
      CStrIsUnique(Pad(s, 256)[k := NUL], s[..k]);
    }

    /** The loop that copies size bytes into the file at p, which has just been emptied. */
    method CopyData(p: Place, size: nat, junk: Junk)
      requires p in fs && fs[p].FileNode?
      modifies this`fs, this`pos
      ensures var data := ReadData(tar, old(pos), size, junk);
        fs == Appended(old(fs), p, data.bytes) && pos == data.pos
    {
      var remaining: int := size;
      while remaining > 0
        invariant 0 <= remaining <= size
        invariant p in fs && fs[p].FileNode?
        invariant var rest := ReadData(tar, pos, remaining, junk);
          && rest.pos == ReadData(tar, old(pos), size, junk).pos
          && Appended(fs, p, rest.bytes) == Appended(old(fs), p, ReadData(tar, old(pos), size, junk).bytes)
      {
        var chunk := if remaining > BLOCK then BLOCK else remaining;
        var got := Fread(tar, pos, chunk);
        var buf := got + junk(pos, remaining)[|got|..chunk];
        ghost var rest := ReadData(tar, pos + |got|, remaining - chunk, junk);
        AppendTwice(fs, p, buf, rest.bytes);
        fs := Appended(fs, p, buf);
        pos := pos + |got|;
        remaining := remaining - chunk;
      }
      assert fs[p].data + [] == fs[p].data;
      assert Appended(fs, p, []) == fs;
    }

    static lemma AppendTwice(fs: Fs, p: Place, a: Bytes, b: Bytes)
      requires p in fs && fs[p].FileNode?
      ensures Appended(Appended(fs, p, a), p, b) == Appended(fs, p, a + b)
    {
      assert fs[p].data + (a + b) == fs[p].data + a + b;
    }

    /** restore_from_tar */
    method RestoreFromTar(o: Options)
      modifies this
      ensures fs == RestoreFrom(tar, 0, old(fs), o).fs
    {
      pos := 0;
      var more := true;
      while more
        invariant (if more then RestoreFrom(tar, pos, fs, o).fs else fs) == RestoreFrom(tar, 0, old(fs), o).fs
        decreases more, |tar| + BLOCK - pos
      {
        var h := Fread(tar, pos, BLOCK);
        if |h| != BLOCK || h[0] == NUL {
          more := false;
        } else {
          pos := pos + BLOCK;
          OneEntry(h, o);
        }
      }
    }

    /** The body of the loop, behind a header that was read in full. */
    method OneEntry(h: Bytes, o: Options)
      requires |h| == BLOCK
      modifies this
      ensures State(fs, pos) == RestoreEntry(tar, State(old(fs), old(pos)), h, o)
    {
      hide PlaceOf, ChangeMode, ChangeTimes, Mkdir, Symlink, ReadData, EnsureParents, FullPath, SkipLength,
        NameIn, SizeIn, ModeIn, MtimeIn, LinkIn, Appended, Truncated, CanOpen;
      var name := NameIn(h);
      if name == [] {
        return;
      }
      var size := SizeIn(h);
      var kind := h[TYPE];
      var mtime := MtimeIn(h);
      var mode := ModeIn(h);
      if !(o.prefix <= name) {
        pos := pos + SkipLength(size);
        return;
      }
      var rel := name[|o.prefix|..];
      if rel == [] {
        pos := pos + SkipLength(size);
        return;
      }
      var full := FullPath(rel);
      if !o.overwrite && Exists(fs, PlaceOf(full)) {
        pos := pos + SkipLength(size);
        return;
      }
      if kind == DIRECTORY {
        EnsureParentDirsExist(full, o.clock);
        fs := Mkdir(fs, full, o.clock);
        fs := ChangeMode(fs, full, mode);
        fs := ChangeTimes(fs, full, mtime);
      } else if kind == SYMLINK {
        EnsureParentDirsExist(full, o.clock);
        fs := Symlink(fs, LinkIn(h), full);
      } else if kind == REGULAR || kind == NUL {
        EnsureParentDirsExist(full, o.clock);
        var p := PlaceOf(full);
        if !CanOpen(fs, p) {
          pos := pos + SkipLength(size);
          return;
        }
        fs := Truncated(fs, p, o.clock);
        CopyData(p, size, o.junk);
        fs := ChangeMode(fs, full, mode);
        fs := ChangeTimes(fs, full, mtime);
        if size % 512 != 0 {
          pos := pos + (512 - size % 512);
        }
      } else {
        pos := pos + SkipLength(size);
      }
    }
  }
}
