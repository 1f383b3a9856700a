/** One entry of an archive: written by the backup, read by the restore. */
module RoundTripEntry {
  import opened ByteStrings
  import opened PfsTree
  import opened UstarHeader
  import opened Restore
  import Calendar
  import Modes
  import Octal
  import opened Walk

  datatype Named = Named(path: Bytes, node: Node)

  // ----- what the header carries of a node -----

  /** A time stamp and a link target, written to the header and read from it. */
  function StampRead(b: Stamp): Stamp { Calendar.StampFromField(Calendar.TimeField(b)) }

  function TargetRead(target: Bytes): Bytes { CStr(AtMost100(target)) }

  function SizeOf(n: Node): nat { if n.File? then |n.data| else 0 }

  lemma SizeFieldValue(n: Node)
    requires SizeOf(n) < TWO_32
    ensures Octal.StrToL(CStr(SizeField(n))) == SizeOf(n)
  {
    assert Octal.Power8(11) == 0x2_0000_0000 by {
      assert Octal.Power8(4) == 4096 && Octal.Power8(8) == 4096 * 4096;
    }
    if n.File? {
      Octal.FieldRoundTrip(|n.data|, 11);
    } else {
      var d := ElevenZeros();
      CStrIsUnique(SizeField(n), d);
      Octal.LeadingDigitsAre(d, d);
      ValueOfZeros(d);
    }
  }

  lemma {:induction false} ValueOfZeros(d: Bytes)
    requires forall i :: 0 <= i < |d| ==> d[i] == ZERO_DIGIT
    ensures Octal.Digits(d) && Octal.Value(d) == 0
  {
    if d != [] {
      ValueOfZeros(d[..|d| - 1]);
    }
  }

  /** Every field of the header of a name that fits: name, size and type are the node's own, mode, time and target
      what the format makes of them. */
  lemma HeaderReadsBack(path: Bytes, n: Node)
    requires 0 < |path| <= 100 && NUL !in path && SizeOf(n) < TWO_32
    ensures var h := Header(path, n);
      && NameIn(h) == path && SizeIn(h) == SizeOf(n) && h[TYPE] == TypeFlag(n) && h[0] != NUL
      && ModeIn(h) == Modes.ModeFromField(Modes.ModeField(n.mode)) && MtimeIn(h) == StampRead(n.mtime)
      && (n.Link? ==> LinkIn(h) == TargetRead(n.target))
  {
    hide Header, Octal.StrToL, Modes.ModeFromField, Modes.ModeField, SizeField,
      Calendar.StampFromField, Calendar.TimeField, Pad;
    HeaderIsUstar(path, n);
    CStrOfPad(path, 100);
    FirstByte(Header(path, n), path);
    SizeFieldValue(n);
    if n.Link? {
      PadKeepsCStr(AtMost100(n.target), 100);
    }
  }

  lemma PadKeepsCStr(s: Bytes, n: nat)
    requires |s| <= n
    ensures CStr(Pad(s, n)) == CStr(s)
  {
    CStrIsUnique(Pad(s, n), CStr(s));
  }

  /** The name of an archived entry comes back exactly when the name field holds all of it. */
  lemma NameReadsBackIffShort(path: Bytes, n: Node)
    requires |path| < BLOCK && NUL !in path && PlacementOf(path) != Skip
    ensures NameIn(Header(path, n)) == path <==> |path| <= 100
  {
    hide Header;
    if |path| <= 100 {
      HeaderIsUstar(path, n);
      CStrOfPad(path, 100);
    }
  }

  /** A name of 102 bytes that is archived, in two parts, and does not come back. */
  lemma LongNameIsLost(n: Node)
    ensures var path: Bytes := [97, SLASH] + seq(100, _ => 98);
      PlacementOf(path) == Cut(1) && NameIn(Header(path, n)) != path
  {
    var path: Bytes := [97, SLASH] + seq(100, _ => 98);
    assert path[1] == SLASH && forall i :: 0 <= i < |path| && i != 1 ==> path[i] != SLASH;
    assert NextSlash(path, 1) == 1;
    assert CutPoint(path, 1) == 1;
    assert NUL !in path;
    hide NameIn, Header;
    NameReadsBackIffShort(path, n);
  }

  // ----- stepping over an entry -----

  /** The size that the reader finds in the header of a directory or link. */
  function StraySize(path: Bytes): nat { U32(Octal.StrToL(CStr(StrayField(path)))) }

  /** What must hold of an entry for the reader to step over it: a file whose size rounds up below 4 GiB; a
      directory or link whose name leaves the size field alone, or makes it a number that skips nothing. */
  predicate SteppedOver(path: Bytes, n: Node)
  {
    if n.File? then |n.data| + 511 < TWO_32 else StraySize(path) == 0 || StraySize(path) + 511 >= TWO_32
  }

  /** The reader that skips an archived entry comes to the next header exactly for these. */
  lemma SkipIsExact(path: Bytes, n: Node)
    requires |path| < BLOCK && Archived(path, n)
    ensures BLOCK + SkipLength(SizeIn(Header(path, n))) == |EntryBytes(path, n)| <==> SteppedOver(path, n)
  {
    hide Header, Octal.Field, Octal.StrToL, StrayField, PlacementOf, SkipLength, Padded;
    SizeInHeader(path, n);
    if n.File? {
      FileSkip(n.data);
    } else {
      NoSkip(StraySize(path));
    }
  }

  lemma FileSkip(data: Bytes)
    requires |data| < TWO_32
    ensures SkipLength(|data|) == |Padded(data)| <==> |data| + 511 < TWO_32
  {
    PaddedLength(|data|);
    if |data| + 511 >= TWO_32 {
      assert U32(|data| + 511) == |data| + 511 - TWO_32;
    }
  }

  lemma NoSkip(v: nat)
    requires v < TWO_32
    ensures SkipLength(v) == 0 <==> v == 0 || v + 511 >= TWO_32
  {
    if v + 511 >= TWO_32 {
      assert U32(v + 511) == v + 511 - TWO_32;
    }
  }

  /** The size that any header shows to the reader. */
  lemma SizeInHeader(path: Bytes, n: Node)
    requires |path| < BLOCK && PlacementOf(path) != Skip && SizeOf(n) < TWO_32
    ensures SizeIn(Header(path, n)) == if n.File? then |n.data| else StraySize(path)
  {
    hide Header, Octal.StrToL, Octal.Field, PlacementOf;
    SizeFieldValue(n);
    if PlacementOf(path).Cut? {
      CutHeader(path, n);
    } else {
      WholeIfShort(path);
      HeaderIsUstar(path, n);
      ShortTail(path);
    }
  }

  lemma WholeIfShort(path: Bytes)
    ensures PlacementOf(path) == Whole <==> |path| <= 100
  {
  }

  /** Up to 124 bytes behind the cut leave the size field alone, and so does a name that is not cut. */
  lemma ShortTail(path: Bytes)
    requires |Tail(path)| <= SIZE
    ensures StrayField(path) == ElevenZeros() + [NUL] && StraySize(path) == 0
  {
    hide Tail;
    var f, d := StrayField(path), ElevenZeros();
    assert f == d + [NUL];
    CStrIsUnique(f, d);
    Octal.LeadingDigitsAre(d, d);
    ValueOfZeros(d);
  }

  /** A file of 4 GiB less one byte: the reader skips nothing. */
  lemma LargestFileIsNotSkipped(data: Bytes)
    requires |data| == 0xFFFF_FFFF
    ensures SkipLength(|data|) == 0 && |Padded(data)| == TWO_32
  {
    PaddedLength(|data|);
  }

  /** A directory of the partition "P" called 200 times '1': behind the cut the name covers the size field with
      octal digits, and the reader skips 1,227,133,952 bytes behind a header that nothing belongs to. */
  lemma DigitsInTheSizeField(path: Bytes, n: Node)
    requires path == [80, SLASH] + seq(200, _ => 49) && n.Dir?
    ensures PlacementOf(path) == Cut(1) && Archived(path, n) && |EntryBytes(path, n)| == BLOCK
    ensures SizeIn(Header(path, n)) == 1_227_133_513 && SkipLength(1_227_133_513) == 1_227_133_952
    ensures !SteppedOver(path, n)
  {
    hide PlacementOf, Tail, Header, StraySize, StrayField, SizeIn;
    assert forall i :: 2 <= i < |path| ==> path[i] == 49;
    assert SLASH !in path[2..];
    CutBehindFirstName(path);
    assert Tail(path) == path[1..];
    TwelveOnes(path);
    SizeInHeader(path, n);
  }

  lemma CutBehindFirstName(path: Bytes)
    requires 100 < |path| && path[0] != SLASH && path[1] == SLASH && SLASH !in path[2..]
    ensures PlacementOf(path) == Cut(1)
  {
    assert NextSlash(path, 1) == 1;
    assert forall i :: 2 <= i < |path| ==> path[i] == path[2..][i - 2] != SLASH;
  }

  lemma TwelveOnes(path: Bytes)
    requires |Tail(path)| >= MTIME && forall i :: SIZE <= i < MTIME ==> Tail(path)[i] == 49
    ensures StraySize(path) == 1_227_133_513
  {
    var f := StrayField(path);
    hide Tail;
    forall i | 0 <= i < 12 ensures f[i] == 49 {
      assert f[i] == StrayByte(path, i);
    }
    hide StrayField;
    CStrIsUnique(f, f);
    Octal.LeadingDigitsAre(f, f);
    ValueOfOnes(f);
    assert Octal.Power8(12) == 0x10_0000_0000 by { assert Octal.Power8(6) == 0x4_0000; }
    hide Octal.Value, Octal.LeadingDigits, Octal.Power8;
    assert Octal.StrToL(f) == Octal.Value(f);
  }

  lemma {:induction false} ValueOfOnes(d: Bytes)
    requires forall i :: 0 <= i < |d| ==> d[i] == 49
    ensures Octal.Digits(d) && 7 * Octal.Value(d) + 1 == Octal.Power8(|d|)
  {
    if d != [] {
      ValueOfOnes(d[..|d| - 1]);
    }
  }

  lemma PaddedLength(n: nat)
    ensures n + Filling(n) == (n + 511) / 512 * 512
    ensures Filling(n) == if n % 512 != 0 then 512 - n % 512 else 0
  {
    if n % 512 == 0 {
      assert (n + 511) / 512 == n / 512;
    } else {
      assert (n + 511) / 512 == n / 512 + 1;
    }
  }

  /** Reading the blocks of a file gives its bytes, the filling left over. */
  lemma {:induction false} ReadDataOf(tar: Bytes, pos: nat, end: nat, junk: Junk)
    requires pos <= end <= |tar|
    ensures ReadData(tar, pos, end - pos, junk).bytes == tar[pos..end]
    ensures ReadData(tar, pos, end - pos, junk).pos == end
    decreases end - pos
  {
    hide ReadData;
    if pos == end {
      ReadNothing(tar, pos, junk);
    } else {
      var chunk := if end - pos > BLOCK then BLOCK else end - pos;
      ReadDataOf(tar, pos + chunk, end, junk);
      ReadDataStep(tar, pos, end - pos, junk);
      assert end - pos - chunk == end - (pos + chunk);
      assert tar[pos..pos + chunk] + tar[pos + chunk..end] == tar[pos..end];
    }
  }

  lemma ReadNothing(tar: Bytes, pos: nat, junk: Junk)
    requires pos <= |tar|
    ensures ReadData(tar, pos, 0, junk).bytes == tar[pos..pos] && ReadData(tar, pos, 0, junk).pos == pos
  {
  }

  lemma ReadDataStep(tar: Bytes, pos: nat, size: nat, junk: Junk)
    requires 0 < size && pos + size <= |tar|
    ensures var chunk := if size > BLOCK then BLOCK else size;
      var rest := ReadData(tar, pos + chunk, size - chunk, junk);
      && ReadData(tar, pos, size, junk).bytes == tar[pos..pos + chunk] + rest.bytes
      && ReadData(tar, pos, size, junk).pos == rest.pos
  {
    var chunk := if size > BLOCK then BLOCK else size;
    var got := Fread(tar, pos, chunk);
    assert got == tar[pos..pos + chunk];
    hide Fread;
    assert got + junk(pos, size)[|got|..chunk] == got;
  }

  /** What reading an entry does to the partition: nothing for a name that was cut or is foreign, or for a node that
      is there; otherwise the node is created from what the header carries. */
  function Effect(fs: Fs, e: Named, o: Options): Fs
  {
    if !Archived(e.path, e.node) || |e.path| > 100 || !(o.prefix < e.path) then fs
    else
      var full := FullPath(e.path[|o.prefix|..]);
      if !o.overwrite && Exists(fs, PlaceOf(full)) then fs else Created(fs, full, e.node, o)
  }

  function Created(fs: Fs, full: Bytes, n: Node, o: Options): Fs
    requires |full| > |ROOT|
  {
    var p := PlaceOf(full);
    var fs := EnsureParents(fs, full, o.clock);
    if n.Dir? then Attributed(Mkdir(fs, full, o.clock), full, n)
    else if n.Link? then Symlink(fs, TargetRead(n.target), full)
    else if CanOpen(fs, p) then Attributed(Appended(Truncated(fs, p, o.clock), p, n.data), full, n)
    else fs
  }

  function Attributed(fs: Fs, full: Bytes, n: Node): Fs
  {
    ChangeTimes(ChangeMode(fs, full, Modes.ModeFromField(Modes.ModeField(n.mode))), full, StampRead(n.mtime))
  }

  /** Archive names of a partition begin with its identifier, so never with a slash, as the cut ones do. */
  predicate ProperPrefix(prefix: Bytes) { prefix != [] && prefix[0] != SLASH }

  /** One turn of the reader over an entry as the backup wrote it: the entry's effect, and the position
      behind all its blocks, whichever branch is taken. */
  lemma EntryIsReadWhole(tar: Bytes, pos: nat, fs: Fs, e: Named, o: Options)
    requires ProperPrefix(o.prefix) && |e.path| < BLOCK && NUL !in e.path
    requires Archived(e.path, e.node) && SteppedOver(e.path, e.node)
    requires pos <= |tar| && EntryBytes(e.path, e.node) <= tar[pos..]
    ensures var bytes := EntryBytes(e.path, e.node);
      && |bytes| >= BLOCK && bytes[0] != NUL && tar[pos..pos + BLOCK] == Header(e.path, e.node)
      && RestoreEntry(tar, State(fs, pos + BLOCK), tar[pos..pos + BLOCK], o)
         == State(Effect(fs, e, o), pos + |bytes|)
  {
    hide RestoreEntry, Effect, Header, PlacementOf, SteppedOver, Padded, EntryBytes;
    EntryOnTheTape(tar, pos, e);
    if |e.path| > 100 {
      CutEntryIsSkipped(tar, pos, fs, e, o);
    } else {
      HeaderReadsBack(e.path, e.node);
      ShortEntryIsRead(tar, pos, fs, e, o);
    }
  }

  lemma EntryOnTheTape(tar: Bytes, pos: nat, e: Named)
    requires |e.path| < BLOCK && Archived(e.path, e.node)
    requires pos <= |tar| && EntryBytes(e.path, e.node) <= tar[pos..]
    ensures var bytes := EntryBytes(e.path, e.node);
      BLOCK <= |bytes| && tar[pos..pos + BLOCK] == Header(e.path, e.node) && bytes[0] == Header(e.path, e.node)[0]
    ensures e.node.File? ==>
      pos + BLOCK + |e.node.data| <= |tar| && tar[pos + BLOCK..pos + BLOCK + |e.node.data|] == e.node.data
  {
    hide Header, PlacementOf, Padded;
    var h, rest := Header(e.path, e.node), if e.node.File? then Padded(e.node.data) else [];
    assert EntryBytes(e.path, e.node) == h + rest;
    var data := if e.node.File? then e.node.data else [];
    assert data <= rest;
    hide *;
    TwoStretches(tar, pos, h, rest, |data|);
    assert rest[..|data|] == data;
  }

  lemma TwoStretches(tar: Bytes, pos: nat, a: Bytes, b: Bytes, n: nat)
    requires pos <= |tar| && a + b <= tar[pos..] && n <= |b|
    ensures pos + |a| + n <= |tar| && tar[pos..pos + |a|] == a && tar[pos + |a|..pos + |a| + n] == b[..n]
  {
    assert tar[pos..][..|a + b|] == a + b;
    assert tar[pos..pos + |a|] == (a + b)[..|a|];
    assert tar[pos + |a|..pos + |a| + n] == (a + b)[|a|..|a| + n];
  }

  /** A name that was cut begins with its slash and is foreign to every partition. */
  lemma CutEntryIsSkipped(tar: Bytes, pos: nat, fs: Fs, e: Named, o: Options)
    requires ProperPrefix(o.prefix) && 100 < |e.path| < BLOCK
    requires Archived(e.path, e.node) && SteppedOver(e.path, e.node)
    ensures var h := Header(e.path, e.node);
      && h[0] != NUL
      && RestoreEntry(tar, State(fs, pos + BLOCK), h, o) == State(Effect(fs, e, o), pos + |EntryBytes(e.path, e.node)|)
  {
    hide Header, PlacementOf, SteppedOver, Padded, SkipLength, ModeIn, MtimeIn, LinkIn, EntryBytes;
    WholeIfShort(e.path);
    CutHeader(e.path, e.node);
    SkipIsExact(e.path, e.node);
    var h := Header(e.path, e.node);
    FirstOfName(h);
  }

  lemma FirstOfName(h: Bytes)
    requires |h| == BLOCK && h[0] != NUL
    ensures NameIn(h) != [] && NameIn(h)[0] == h[0]
  {
  }

  lemma ShortEntryIsRead(tar: Bytes, pos: nat, fs: Fs, e: Named, o: Options)
    requires 0 < |e.path| <= 100 && NUL !in e.path && Archived(e.path, e.node) && SteppedOver(e.path, e.node)
    requires e.node.File? ==>
      pos + BLOCK + |e.node.data| <= |tar| && tar[pos + BLOCK..pos + BLOCK + |e.node.data|] == e.node.data
    ensures RestoreEntry(tar, State(fs, pos + BLOCK), Header(e.path, e.node), o)
            == State(Effect(fs, e, o), pos + |EntryBytes(e.path, e.node)|)
  {
    hide Header, EnsureParents, ChangeMode, ChangeTimes, Mkdir, Symlink, Appended, Truncated, CanOpen, PlaceOf,
      FullPath, NameIn, SizeIn, ModeIn, MtimeIn, LinkIn, SkipLength, ReadData, Filling, PlacementOf, TargetRead,
      StampRead, Modes.ModeFromField, Modes.ModeField, StraySize, Exists, EntryBytes, Archived, SteppedOver;
    var n := e.node;
    EntryLength(e.path, n);
    HeaderReadsBack(e.path, n);
    WholeIfShort(e.path);
    PaddedLength(SizeOf(n));
    SkipOf(n);
    if n.File? {
      ReadDataOf(tar, pos + BLOCK, pos + BLOCK + |n.data|, o.junk);
    }
  }

  lemma EntryLength(path: Bytes, n: Node)
    requires |path| < BLOCK && Archived(path, n)
    ensures |EntryBytes(path, n)| == BLOCK + SizeOf(n) + if n.File? then Filling(SizeOf(n)) else 0
    ensures SteppedOver(path, n) ==> SizeOf(n) + 511 < TWO_32
  {
  }

  lemma FirstByte(h: Bytes, path: Bytes)
    requires |h| == BLOCK && NameIn(h) == path && path != []
    ensures h[0] != NUL
  {
  }

  lemma SkipOf(n: Node)
    requires SizeOf(n) + 511 < TWO_32
    ensures SkipLength(SizeOf(n)) == SizeOf(n) + Filling(SizeOf(n))
  {
    PaddedLength(SizeOf(n));
  }
}
