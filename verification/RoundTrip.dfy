/** Whole archives: the reader stays aligned over every entry, and a partition restored from its backup
    is the tree that was backed up. */
module RoundTrip {
  import opened ByteStrings
  import opened PfsTree
  import opened UstarHeader
  import opened Restore
  import opened RoundTripEntry
  import opened Walk

  // ----- the reader on an archive of many entries -----

  predicate Short(es: seq<Named>) { forall i :: 0 <= i < |es| ==> |es[i].path| < BLOCK }

  /** Every entry that is in the archive can be stepped over. */
  predicate AllSteppedOver(es: seq<Named>)
  {
    forall i :: 0 <= i < |es| && Archived(es[i].path, es[i].node) ==> SteppedOver(es[i].path, es[i].node)
  }

  predicate NoNuls(es: seq<Named>) { forall i :: 0 <= i < |es| ==> NUL !in es[i].path }

  function BytesOf(e: Named): Bytes
    requires |e.path| < BLOCK
  {
    EntryBytes(e.path, e.node)
  }

  function EntriesBytes(es: seq<Named>): Bytes
    requires Short(es)
  {
    if es == [] then [] else BytesOf(es[0]) + EntriesBytes(es[1..])
  }

  /** Where each entry that is in the archive begins, and where the last one ends. */
  function Starts(pos: nat, es: seq<Named>): seq<nat>
    requires Short(es)
    decreases |es|
  {
    if es == [] then [pos]
    else (if BytesOf(es[0]) == [] then [] else [pos]) + Starts(pos + |BytesOf(es[0])|, es[1..])
  }

  function Fold(fs: Fs, es: seq<Named>, o: Options): Fs
    decreases |es|
  {
    if es == [] then fs else Fold(Effect(fs, es[0], o), es[1..], o)
  }

  /** The loop heads of the reader are exactly the headers of the writer, and the partition is changed
      by the entries one after the other, whatever it contained, however many entries are skipped and whatever
      the time stamps, modes and targets are. */
  lemma {:induction false} ReaderStaysAligned(tar: Bytes, pos: nat, es: seq<Named>, trailer: Bytes, fs: Fs, o: Options)
    requires ProperPrefix(o.prefix) && Short(es) && NoNuls(es) && AllSteppedOver(es)
    requires |trailer| >= BLOCK && trailer[0] == NUL
    requires pos <= |tar| && tar[pos..] == EntriesBytes(es) + trailer
    ensures RestoreFrom(tar, pos, fs, o) == Run(Fold(fs, es, o), Starts(pos, es))
    decreases |es|
  {
    hide BytesOf, Effect, RestoreEntry, SteppedOver, Archived;
    if es == [] {
      assert tar[pos] == tar[pos..][0] == NUL;
    } else if !Archived(es[0].path, es[0].node) {
      NotInTheArchive(fs, es[0], o);
      assert [] + EntriesBytes(es[1..]) == EntriesBytes(es[1..]) && [] + Starts(pos, es[1..]) == Starts(pos, es[1..]);
      ReaderStaysAligned(tar, pos, es[1..], trailer, fs, o);
    } else {
      assert tar[pos..] == BytesOf(es[0]) + (EntriesBytes(es[1..]) + trailer);
      FirstEntryIsRead(tar, pos, fs, es[0], EntriesBytes(es[1..]) + trailer, o);
      ReaderStaysAligned(tar, pos + |BytesOf(es[0])|, es[1..], trailer, Effect(fs, es[0], o), o);
    }
  }

  lemma NotInTheArchive(fs: Fs, e: Named, o: Options)
    requires |e.path| < BLOCK && !Archived(e.path, e.node)
    ensures BytesOf(e) == [] && Effect(fs, e, o) == fs
  {
  }

  lemma FirstEntryIsRead(tar: Bytes, pos: nat, fs: Fs, e: Named, rest: Bytes, o: Options)
    requires ProperPrefix(o.prefix) && |e.path| < BLOCK && NUL !in e.path
    requires Archived(e.path, e.node) && SteppedOver(e.path, e.node)
    requires pos <= |tar| && tar[pos..] == BytesOf(e) + rest
    ensures pos + BLOCK <= pos + |BytesOf(e)| <= |tar| && tar[pos] != NUL
    ensures tar[pos + |BytesOf(e)|..] == rest
    ensures RestoreEntry(tar, State(fs, pos + BLOCK), tar[pos..pos + BLOCK], o)
            == State(Effect(fs, e, o), pos + |BytesOf(e)|)
  {
    var bytes := BytesOf(e);
    assert bytes == EntryBytes(e.path, e.node);
    hide *;
    BehindPrefix(tar, pos, bytes, rest);
    EntryIsReadWhole(tar, pos, fs, e, o);
  }

  lemma BehindPrefix(tar: Bytes, pos: nat, bytes: Bytes, rest: Bytes)
    requires pos <= |tar| && tar[pos..] == bytes + rest
    ensures bytes <= tar[pos..] && pos + |bytes| <= |tar| && tar[pos + |bytes|..] == rest
    ensures bytes != [] ==> tar[pos] == bytes[0]
  {
    assert tar[pos..][|bytes|..] == rest;
    assert tar[pos..][|bytes|..] == tar[pos + |bytes|..];
    assert bytes != [] ==> tar[pos] == tar[pos..][0];
  }

  lemma {:induction false} FoldConcat(fs: Fs, a: seq<Named>, b: seq<Named>, o: Options)
    ensures Fold(fs, a + b, o) == Fold(Fold(fs, a, o), b, o)
    decreases |a|
  {
    hide Effect;
    if a == [] {
      assert a + b == b;
    } else {
      assert (a + b)[1..] == a[1..] + b;
      FoldConcat(Effect(fs, a[0], o), a[1..], b, o);
    }
  }

  lemma FoldNothing(fs: Fs, o: Options)
    ensures Fold(fs, [], o) == fs
  {
  }

  /** Entries of other partitions are left alone. */
  lemma {:induction false} ForeignEntries(fs: Fs, es: seq<Named>, o: Options)
    requires forall i :: 0 <= i < |es| ==> !(o.prefix < es[i].path)
    ensures Fold(fs, es, o) == fs
    decreases |es|
  {
    if es != [] {
      ForeignEntries(fs, es[1..], o);
    }
  }

  // ----- a restore never touches what is there -----

  ghost predicate Extends(fs: Fs, before: Fs)
  {
    forall p :: p in before ==> p in fs && fs[p] == before[p]
  }

  lemma {:induction false} ParentsExtend(fs: Fs, tmp: Bytes, k: nat, clock: Stamp)
    requires k <= |tmp|
    ensures Extends(MakeParents(fs, tmp, k, clock), fs)
    decreases |tmp| - k
  {
    if k < |tmp| {
      ParentsExtend(if tmp[k] == SLASH then Mkdir(fs, tmp[..k], clock) else fs, tmp, k + 1, clock);
    }
  }

  lemma EntryExtends(tar: Bytes, st: State, h: Bytes, o: Options)
    requires |h| == BLOCK && !o.overwrite
    ensures Extends(RestoreEntry(tar, st, h, o).fs, st.fs)
  {
    hide PlaceOf, ReadData, SkipLength, FullPath, NameIn, ModeIn, MtimeIn, SizeIn, LinkIn, Clipped, MakeParents;
    var name := NameIn(h);
    if o.prefix < name {
      var full := FullPath(name[|o.prefix|..]);
      assert |Clipped(full)| >= |ROOT|;
      ParentsExtend(st.fs, Clipped(full), |ROOT|, o.clock);
    }
  }

  /** Without --overwrite a restore only adds nodes: over any archive, well-formed or not. */
  lemma {:induction false} RestoreOnlyAdds(tar: Bytes, pos: nat, fs: Fs, o: Options)
    requires !o.overwrite
    ensures Extends(RestoreFrom(tar, pos, fs, o).fs, fs)
    decreases |tar| + BLOCK - pos
  {
    hide RestoreEntry;
    if !(pos + BLOCK > |tar| || tar[pos] == NUL) {
      var h := tar[pos..pos + BLOCK];
      EntryExtends(tar, State(fs, pos + BLOCK), h, o);
      var st := RestoreEntry(tar, State(fs, pos + BLOCK), h, o);
      RestoreOnlyAdds(tar, st.pos, st.fs, o);
    }
  }
}
