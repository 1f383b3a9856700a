/** What the archive says to any reader of the format: its entries, block by block and number by number. */
module ArchiveNumbers {
  import opened ByteStrings
  import opened PfsTree
  import opened UstarHeader
  import opened HeaderNumbers
  import opened Walk

  /** An entry in the archive, behind whatever has been written before: mode, time in seconds since the Epoch plus nine
      hours, kind and size; then the bytes of a file, NULs up to a whole block of 512, and nothing else. */
  lemma EntryInNumbers(front: Bytes, path: Bytes, n: Node, seconds: nat)
    requires |path| < 512 && Archived(path, n)
    requires n.mode / 4096 % 16 == match n case Dir(_, _, _) => 1 case File(_, _, _) => 2 case Link(_, _, _) => 4
    requires StampedAt(n.mtime, seconds) && seconds + 32400 < 0x1_0000_0000
    ensures var out, at := front + EntryBytes(path, n), |front|;
      && |out| >= at + 512 && (|out| - at) % 512 == 0
      && Spells(out, at + 100, 7, PosixMode(n)) && Spells(out, at + 136, 11, seconds + 32400)
      && out[at + 156] == (match n case File(_, _, _) => 48 case Link(_, _, _) => 50 case Dir(_, _, _) => 53)
      && (if n.File? then
            Spells(out, at + 124, 11, |n.data|) && at + 512 + |n.data| <= |out| < at + 1024 + |n.data|
            && forall i :: at + 512 <= i < |out| ==> out[i] == if i < at + 512 + |n.data| then n.data[i - (at + 512)] else 0
          else |out| == at + 512)
  {
    hide Spells, StampedAt, PlacementOf, Header, PosixMode, Padded, Archived, EntryBytes, POWERS;
    EntryIs(path, n);
    NumbersInHeader(path, n, seconds);
    var h, rest := Header(path, n), if n.File? then Padded(n.data) else [];
    SpelledBehind(front, h, rest, 100, 7, PosixMode(n));
    SpelledBehind(front, h, rest, 136, 11, seconds + 32400);
    if n.File? {
      SpelledBehind(front, h, rest, 124, 11, |n.data|);
      PaddingIs(n.data);
    }
    BytesBehind(front, h, rest);
  }

  lemma EntryIs(path: Bytes, n: Node)
    requires |path| < 512 && Archived(path, n)
    ensures PlacementOf(path) != Skip && (n.File? ==> |n.data| < 0x1_0000_0000)
    ensures EntryBytes(path, n) == Header(path, n) + if n.File? then Padded(n.data) else []
  {
    hide Header, PlacementOf, Padded;
  }

  lemma PaddingIs(data: Bytes)
    ensures |data| <= |Padded(data)| < |data| + 512 && |Padded(data)| % 512 == 0
    ensures forall i :: 0 <= i < |Padded(data)| ==> Padded(data)[i] == if i < |data| then data[i] else 0
  {
  }

  lemma BytesBehind(front: Bytes, h: Bytes, rest: Bytes)
    requires |h| == 512
    ensures var out := front + (h + rest);
      && |out| == |front| + 512 + |rest| && out[|front| + 156] == h[156]
      && forall i :: |front| + 512 <= i < |out| ==> out[i] == rest[i - (|front| + 512)]
  {
  }

  lemma SpelledBehind(front: Bytes, h: Bytes, rest: Bytes, at: nat, w: nat, v: nat)
    requires at + w < |h| && w <= 11 && Spells(h, at, w, v)
    ensures Spells(front + (h + rest), |front| + at, w, v)
  {
    hide POWERS;
    var all := front + (h + rest);
    forall i | |front| + at <= i <= |front| + at + w ensures all[i] == h[i - |front|] {
    }
  }
}
