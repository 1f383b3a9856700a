/** HDLFS: reading, writing and seeking a mounted image. The slices of the disk look like one flat image. */
module HdlfsImage {
  import opened ByteStrings
  import opened HdlfsFormat

  // ----- the flat image -----

  /** Sectors of the image that slice i holds, and where slice i begins in the image. */
  function Length(info: seq<Extent>, i: nat): nat
    requires i < |info|
  {
    info[i].partSize / 512
  }

  function Base(info: seq<Extent>, i: nat): nat
    requires i < |info|
  {
    info[i].partOffset * 4
  }

  /** Every extent lies in its slice, behind the reserved area. */
  ghost predicate Holds<T>(disk: seq<seq<T>>, info: seq<Extent>, n: nat, sectors: nat)
  {
    && Covers(info, n, sectors) && n == |disk| && n <= |info| == MAX_EXTENTS
    && sectors < 0x800_0000
    && (forall i :: n <= i < |info| ==> info[i] == Extent(0, 0, 0))
    && (forall i :: 0 <= i < n ==> Reserved(i) + Length(info, i) <= |disk[i]|)
  }

  function DataOf<T>(disk: seq<seq<T>>, info: seq<Extent>, i: nat): seq<T>
    requires i < |disk| && i < |info| && Reserved(i) + Length(info, i) <= |disk[i]|
  {
    disk[i][Reserved(i)..Reserved(i) + Length(info, i)]
  }

  /** The image sectors in the first n slices, one behind the other. */
  function Image<T>(disk: seq<seq<T>>, info: seq<Extent>, n: nat): seq<T>
    requires n <= |disk| && n <= |info|
    requires forall i :: 0 <= i < n ==> Reserved(i) + Length(info, i) <= |disk[i]|
  {
    if n == 0 then [] else Image(disk, info, n - 1) + DataOf(disk, info, n - 1)
  }

  /** Outside the image the disk has stayed as it was: the first 4 MB of the main slice, the first four sectors of the
      others, what lies behind a slice's share, and the slices' sizes. */
  ghost predicate OnlyImage<T>(disk: seq<seq<T>>, disk': seq<seq<T>>, info: seq<Extent>)
  {
    && |disk'| == |disk| <= |info|
    && (forall i :: 0 <= i < |disk| ==> |disk'[i]| == |disk[i]|)
    && forall i, k :: 0 <= i < |disk| && 0 <= k < |disk[i]| && !InShare(info, i, k) ==> disk'[i][k] == disk[i][k]
  }

  /** Sector k of slice i belongs to the image. */
  predicate InShare(info: seq<Extent>, i: nat, k: nat)
    requires i < |info|
  {
    var reserved := if i == 0 then 0x2000 else 4;
    reserved <= k < reserved + info[i].partSize / 512
  }

  lemma OnlyImageTwice<T>(a: seq<seq<T>>, b: seq<seq<T>>, c: seq<seq<T>>, info: seq<Extent>)
    requires OnlyImage(a, b, info) && OnlyImage(b, c, info)
    ensures OnlyImage(a, c, info)
  {
  }

  lemma NothingWritten<T>(disk: seq<seq<T>>, info: seq<Extent>)
    requires |disk| <= |info|
    ensures OnlyImage(disk, disk, info)
  {
  }

  lemma WrittenInside<T>(disk: seq<seq<T>>, info: seq<Extent>, n: nat, sectors: nat, i: nat, rel: nat, data: seq<T>)
    requires Holds(disk, info, n, sectors) && i < n && rel + |data| <= Length(info, i)
    ensures OnlyImage(disk, Written(disk, i, rel, data), info)
  {
    hide Covers;
  }

  lemma {:induction false} ImageLength<T>(disk: seq<seq<T>>, info: seq<Extent>, n: nat, sectors: nat, k: nat)
    requires Holds(disk, info, n, sectors) && k <= n
    ensures |Image(disk, info, k)| == if k == n then sectors * 4 else Base(info, k)
  {
    if k > 0 {
      ImageLength(disk, info, n, sectors, k - 1);
    }
  }

  /** A stretch of one slice is a stretch of the image. */
  lemma {:induction false} ImageRead<T>(disk: seq<seq<T>>, info: seq<Extent>, n: nat, sectors: nat, k: nat,
                                        i: nat, rel: nat, m: nat)
    requires Holds(disk, info, n, sectors) && i < k <= n && rel + m <= Length(info, i)
    ensures Base(info, i) + rel + m <= |Image(disk, info, k)|
    ensures var reserved := if i == 0 then 0x2000 else 4;
      Image(disk, info, k)[Base(info, i) + rel..Base(info, i) + rel + m] == disk[i][reserved + rel..reserved + rel + m]
    decreases k
  {
    hide Image, Covers;
    var front, data := Image(disk, info, k - 1), DataOf(disk, info, k - 1);
    ImageLength(disk, info, n, sectors, k - 1);
    ImageStep(disk, info, k);
    if i < k - 1 {
      ImageRead(disk, info, n, sectors, k - 1, i, rel, m);
      hide *;
      assert front <= front + data;
      SubSlice(Image(disk, info, k), front, Base(info, i) + rel, m);
    } else {
      assert data == disk[i][Reserved(i)..Reserved(i) + Length(info, i)];
      hide *;
      SliceOfSlice(disk[i], Reserved(i), Length(info, i), rel, m);
      SliceBehind(front, data, rel, m);
    }
  }

  lemma SliceOfSlice<T>(s: seq<T>, from: nat, len: nat, rel: nat, m: nat)
    requires from + len <= |s| && rel + m <= len
    ensures s[from..from + len][rel..rel + m] == s[from + rel..from + rel + m]
  {
    var a, b := s[from..from + len][rel..rel + m], s[from + rel..from + rel + m];
    assert forall k :: 0 <= k < m ==> a[k] == s[from + (rel + k)] == b[k];
    assert a == b;
  }

  lemma SliceBehind<T>(front: seq<T>, s: seq<T>, rel: nat, m: nat)
    requires rel + m <= |s|
    ensures (front + s)[|front| + rel..|front| + rel + m] == s[rel..rel + m]
  {
    assert (front + s)[|front|..] == s;
    assert (front + s)[|front|..][rel..rel + m] == (front + s)[|front| + rel..|front| + rel + m];
  }

  lemma SubSlice<T>(s: seq<T>, front: seq<T>, at: nat, m: nat)
    requires front <= s && at + m <= |front|
    ensures s[at..at + m] == front[at..at + m]
  {
  }

  /** Writing a stretch of one slice writes that stretch of the image and leaves the rest. */
  lemma {:induction false} ImageWrite<T>(disk: seq<seq<T>>, info: seq<Extent>, n: nat, sectors: nat, k: nat,
                                         i: nat, rel: nat, data: seq<T>)
    requires Holds(disk, info, n, sectors) && i < k <= n && rel + |data| <= Length(info, i)
    ensures Base(info, i) + rel + |data| <= |Image(disk, info, k)|
    ensures Holds(Written(disk, i, rel, data), info, n, sectors)
    ensures Image(Written(disk, i, rel, data), info, k) == Splice(Image(disk, info, k), Base(info, i) + rel, data)
    decreases k
  {
    hide Covers, Image, Splice;
    if k - 1 == i {
      ImageWriteLast(disk, info, n, sectors, i, rel, data);
    } else {
      var after := Written(disk, i, rel, data);
      ImageWrite(disk, info, n, sectors, k - 1, i, rel, data);
      ImageStep(disk, info, k);
      ImageStep(after, info, k);
      SpliceEarlier(Image(disk, info, k - 1), DataOf(disk, info, k - 1), Base(info, i) + rel, data);
    }
  }

  lemma ImageStep<T>(disk: seq<seq<T>>, info: seq<Extent>, k: nat)
    requires 0 < k <= |disk| && k <= |info|
    requires forall i :: 0 <= i < k ==> Reserved(i) + Length(info, i) <= |disk[i]|
    ensures Image(disk, info, k) == Image(disk, info, k - 1) + DataOf(disk, info, k - 1)
  {
  }

  lemma ImageWriteLast<T>(disk: seq<seq<T>>, info: seq<Extent>, n: nat, sectors: nat, i: nat, rel: nat, data: seq<T>)
    requires Holds(disk, info, n, sectors) && i < n && rel + |data| <= Length(info, i)
    ensures Base(info, i) + rel + |data| <= |Image(disk, info, i + 1)|
    ensures Holds(Written(disk, i, rel, data), info, n, sectors)
    ensures Image(Written(disk, i, rel, data), info, i + 1) == Splice(Image(disk, info, i + 1), Base(info, i) + rel, data)
  {
    var after := Written(disk, i, rel, data);
    ImageBefore(disk, info, n, sectors, i, i, rel, data);
    ImageLength(disk, info, n, sectors, i);
    ImageStep(disk, info, i + 1);
    ImageStep(after, info, i + 1);
    SpliceMiddle(disk[i], Reserved(i), Length(info, i), rel, data);
    hide Image, Splice, Holds;
    SpliceLater(Image(disk, info, i), DataOf(disk, info, i), rel, data);
  }

  /** The disk with data written to slice i, rel sectors behind its reserved area. */
  function Written<T>(disk: seq<seq<T>>, i: nat, rel: nat, data: seq<T>): (r: seq<seq<T>>)
    requires i < |disk| && Reserved(i) + rel + |data| <= |disk[i]|
    ensures |r| == |disk| && |r[i]| == |disk[i]|
    ensures forall k :: 0 <= k < |disk| && k != i ==> r[k] == disk[k]
  {
    disk[i := Splice(disk[i], Reserved(i) + rel, data)]
  }

  lemma {:induction false} ImageBefore<T>(disk: seq<seq<T>>, info: seq<Extent>, n: nat, sectors: nat, k: nat,
                                          i: nat, rel: nat, data: seq<T>)
    requires Holds(disk, info, n, sectors) && k <= i < n && rel + |data| <= Length(info, i)
    ensures Holds(Written(disk, i, rel, data), info, n, sectors)
    ensures Image(Written(disk, i, rel, data), info, k) == Image(disk, info, k)
  {
    if k > 0 {
      ImageBefore(disk, info, n, sectors, k - 1, i, rel, data);
    }
  }

  lemma SpliceMiddle<T>(s: seq<T>, from: nat, len: nat, rel: nat, data: seq<T>)
    requires from + len <= |s| && rel + |data| <= len
    ensures Splice(s, from + rel, data)[from..from + len] == Splice(s[from..from + len], rel, data)
  {
  }

  lemma SpliceLater<T>(front: seq<T>, s: seq<T>, rel: nat, data: seq<T>)
    requires rel + |data| <= |s|
    ensures Splice(front + s, |front| + rel, data) == front + Splice(s, rel, data)
  {
  }

  lemma SpliceEarlier<T>(s: seq<T>, rest: seq<T>, at: nat, data: seq<T>)
    requires at + |data| <= |s|
    ensures Splice(s + rest, at, data) == Splice(s, at, data) + rest
  {
  }

  lemma SpliceTwice<T>(s: seq<T>, at: nat, a: seq<T>, b: seq<T>)
    requires at + |a| + |b| <= |s|
    ensures Splice(Splice(s, at, a), at + |a|, b) == Splice(s, at, a + b)
  {
  }
}
