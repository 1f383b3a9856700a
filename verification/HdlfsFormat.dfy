/** HDLFS: laying a disc image out over the slices of an APA partition. */
module HdlfsFormat {
  import opened ByteStrings

  /** One slice as the APA driver reports it: its first sector, or a negative code, and its size in 512-byte sectors. */
  datatype Slice = Slice(start: int, size: nat)

  /** part_specs_t: offset in 2048-byte sectors, first data sector in 512-byte sectors, size in bytes. */
  datatype Extent = Extent(partOffset: nat, dataStart: nat, partSize: nat)

  const MAX_EXTENTS := 65
  const SHARE_LIMIT := 0x200000

  const EINVAL := 22
  const ENOMEM := 12
  const EIO := 5
  const ENODEV := 19
  const EMFILE := 24

  /** 4 MB at the head of the main slice, two sectors rounded up to four at the head of the others. */
  function Reserved(i: nat): nat { if i == 0 then 0x2000 else 4 }

  /** The 2048-byte sectors that slice i can hold, in unsigned arithmetic. */
  function Capacity(slices: seq<Slice>, i: nat): nat
    requires i < |slices|
  {
    U32(slices[i].size - Reserved(i)) / 4
  }

  function SumOfCapacities(slices: seq<Slice>, i: nat): nat
    requires i <= |slices|
  {
    if i == 0 then 0 else SumOfCapacities(slices, i - 1) + Capacity(slices, i - 1)
  }

  /** The sectors placed before slice i: all that fit, never more than there are. */
  function Used(slices: seq<Slice>, sectors: nat, i: nat): (r: nat)
    requires i <= |slices|
    ensures r <= sectors
  {
    if SumOfCapacities(slices, i) < sectors then SumOfCapacities(slices, i) else sectors
  }

  function Share(slices: seq<Slice>, sectors: nat, i: nat): nat
    requires i < |slices|
  {
    Used(slices, sectors, i + 1) - Used(slices, sectors, i)
  }

  function ExtentOf(slices: seq<Slice>, sectors: nat, i: nat): Extent
    requires i < |slices|
  {
    Extent(Used(slices, sectors, i), U32(slices[i].start + Reserved(i)), U32(Share(slices, sectors, i) * 2048))
  }

  /** Nothing stops the loop in the slices before i. */
  predicate Laid(slices: seq<Slice>, sectors: nat, i: nat)
    requires i <= |slices|
  {
    forall k :: 0 <= k < i ==> slices[k].start >= 0 && Share(slices, sectors, k) < SHARE_LIMIT
  }

  predicate Fits(slices: seq<Slice>, sectors: nat)
  {
    Laid(slices, sectors, |slices|) && SumOfCapacities(slices, |slices|) >= sectors
  }

  /** The code of the first slice that stops the loop, or 0. */
  function FirstError(slices: seq<Slice>, sectors: nat, i: nat): int
    requires i <= |slices|
    decreases |slices| - i
  {
    if i == |slices| then 0
    else if slices[i].start < 0 then slices[i].start
    else if Share(slices, sectors, i) >= SHARE_LIMIT then -EINVAL
    else FirstError(slices, sectors, i + 1)
  }

  function FailureCode(partitionFd: int, slices: seq<Slice>, sectors: nat): int
  {
    if partitionFd < 0 then partitionFd
    else if FirstError(slices, sectors, 0) != 0 then FirstError(slices, sectors, 0)
    else if SumOfCapacities(slices, |slices|) < sectors then -ENOMEM
    else -EIO
  }

  /** What a failed format returns: the code of the open that failed; or, of the first slice at which the layout stops, its
      own code or -22 for a share that is too large; or -12 without room; or -5 when the block cannot be written. */
  lemma FailureIs(partitionFd: int, slices: seq<Slice>, sectors: nat, i: nat)
    ensures var code := FailureCode(partitionFd, slices, sectors);
      && (partitionFd < 0 ==> code == partitionFd)
      && (partitionFd >= 0 && i < |slices| && Laid(slices, sectors, i) ==>
            && (slices[i].start < 0 ==> code == slices[i].start)
            && (slices[i].start >= 0 && Share(slices, sectors, i) >= 0x20_0000 ==> code == -22))
      && (partitionFd >= 0 && Laid(slices, sectors, |slices|) ==>
            code == if SumOfCapacities(slices, |slices|) < sectors then -12 else -5)
  {
    hide Share, SumOfCapacities;
    if i <= |slices| && Laid(slices, sectors, i) {
      NoErrorBefore(slices, sectors, i, 0);
    }
    if Laid(slices, sectors, |slices|) {
      NoErrorBefore(slices, sectors, |slices|, 0);
    }
  }

  lemma {:induction false} NoErrorBefore(slices: seq<Slice>, sectors: nat, i: nat, j: nat)
    requires j <= i <= |slices| && Laid(slices, sectors, i)
    ensures FirstError(slices, sectors, j) == FirstError(slices, sectors, i)
    decreases i - j
  {
    hide Share;
    if j < i {
      NoErrorBefore(slices, sectors, i, j + 1);
    }
  }

  /** hdlfs_format. partitionFd is the result of opening the partition, written whether the final write takes
      all its bytes; info is what ends up in the partition's information block, if anything does. */
  method Format(partitionFd: int, slices: seq<Slice>, sectors: nat, written: bool)
    returns (result: int, info: seq<Extent>)
    requires 0 < |slices| <= MAX_EXTENTS && sectors < TWO_32
    ensures result >= 0 <==> partitionFd >= 0 && Fits(slices, sectors) && written
    ensures result >= 0 ==> result == 0 && |info| == MAX_EXTENTS
    ensures result >= 0 ==> forall i :: 0 <= i < MAX_EXTENTS ==>
      info[i] == if i < |slices| then ExtentOf(slices, sectors, i) else Extent(0, 0, 0)
    ensures result < 0 ==> info == []
    ensures result < 0 ==> result == FailureCode(partitionFd, slices, sectors)
  {
    if partitionFd < 0 {
      return partitionFd, [];
    }
    var specs := new Extent[MAX_EXTENTS](_ => Extent(0, 0, 0));
    var sectorNumber;
    result, sectorNumber := LayOut(slices, sectors, specs);
    if result >= 0 {
      if sectorNumber < sectors {
        result := -ENOMEM;
      } else {
        result := if written then 0 else -EIO;
      }
    }
    info := if result >= 0 then specs[..] else [];
  }

  /** The loop of hdlfs_format over the slices. */
  method LayOut(slices: seq<Slice>, sectors: nat, specs: array<Extent>) returns (result: int, sectorNumber: nat)
    requires 0 < |slices| <= specs.Length && sectors < TWO_32
    requires forall k :: 0 <= k < specs.Length ==> specs[k] == Extent(0, 0, 0)
    modifies specs
    ensures result >= 0 <==> Laid(slices, sectors, |slices|)
    ensures if result < 0 then result == FirstError(slices, sectors, 0) else FirstError(slices, sectors, 0) == 0
    ensures result >= 0 ==> sectorNumber == Used(slices, sectors, |slices|)
    ensures result >= 0 ==> forall k :: 0 <= k < specs.Length ==>
      specs[k] == if k < |slices| then ExtentOf(slices, sectors, k) else Extent(0, 0, 0)
  {
    hide Used, Share, U32, Capacity;
    NothingUsed(slices, sectors);
    sectorNumber := 0;
    result := 0;
    var i := 0;
    while i < |slices| && result >= 0
      invariant 0 <= i <= |slices| && sectorNumber == Used(slices, sectors, i)
      invariant result >= 0 && Laid(slices, sectors, i)
      invariant FirstError(slices, sectors, 0) == FirstError(slices, sectors, i)
      invariant forall k :: 0 <= k < specs.Length ==>
        specs[k] == if k < i then ExtentOf(slices, sectors, k) else Extent(0, 0, 0)
      decreases |slices| - i
    {
      result := slices[i].start;
      if result < 0 {
        break;
      }
      var reserved := Reserved(i);
      var inPart := U32(slices[i].size - reserved) / 4;
      var remaining := U32(sectors - sectorNumber);
      inPart := if inPart > remaining then remaining else inPart;
      NextShare(slices, sectors, i);
      if inPart >= SHARE_LIMIT {
        result := -EINVAL;
        break;
      }
      specs[i] := Extent(sectorNumber, U32(result + reserved), U32(inPart * 2048));
      sectorNumber := U32(sectorNumber + inPart);
      i := i + 1;
    }
  }

  lemma NothingUsed(slices: seq<Slice>, sectors: nat)
    ensures Used(slices, sectors, 0) == 0
  {
  }

  /** The smaller of what fits and what remains is the slice's share, and no sum wraps. */
  lemma NextShare(slices: seq<Slice>, sectors: nat, i: nat)
    requires i < |slices| && sectors < TWO_32
    ensures var used, inPart := Used(slices, sectors, i), U32(slices[i].size - Reserved(i)) / 4;
      var remaining := U32(sectors - used);
      var share := if inPart > remaining then remaining else inPart;
      share == Share(slices, sectors, i) && U32(used + share) == Used(slices, sectors, i + 1)
  {
    assert SumOfCapacities(slices, i + 1) == SumOfCapacities(slices, i) + Capacity(slices, i);
  }

  // ----- what a successful format guarantees -----

  /** The extents of a formatted partition cover the image: they start one behind the other, add up to the
      image, and no field wraps. */
  ghost predicate Covers(info: seq<Extent>, n: nat, sectors: nat)
  {
    && 0 < n <= |info|
    && info[0].partOffset == 0
    && (forall i :: 0 <= i < n ==> info[i].partSize % 2048 == 0)
    && (forall i :: 0 <= i < n - 1 ==> info[i + 1].partOffset == info[i].partOffset + info[i].partSize / 2048)
    && info[n - 1].partOffset + info[n - 1].partSize / 2048 == sectors
  }

  lemma FormattedCovers(slices: seq<Slice>, sectors: nat, info: seq<Extent>)
    requires 0 < |slices| <= |info| && sectors < TWO_32 && Fits(slices, sectors)
    requires forall i :: 0 <= i < |slices| ==> info[i] == ExtentOf(slices, sectors, i)
    ensures Covers(info, |slices|, sectors)
    ensures forall i :: 0 <= i < |slices| ==> info[i].partSize == Share(slices, sectors, i) * 2048 < TWO_32
    ensures forall i :: 0 <= i < |slices| ==> info[i].partOffset == Used(slices, sectors, i)
  {
    hide Used;
    UsedFirst(slices, sectors);
    forall i | 0 <= i < |slices|
      ensures info[i].partSize == Share(slices, sectors, i) * 2048 < TWO_32
      ensures info[i].partSize / 2048 == Share(slices, sectors, i)
    {
      ShareNotNegative(slices, sectors, i);
    }
  }

  lemma UsedFirst(slices: seq<Slice>, sectors: nat)
    ensures Used(slices, sectors, 0) == 0
    ensures SumOfCapacities(slices, |slices|) >= sectors ==> Used(slices, sectors, |slices|) == sectors
  {
  }

  lemma ShareNotNegative(slices: seq<Slice>, sectors: nat, i: nat)
    requires i < |slices|
    ensures 0 <= Share(slices, sectors, i) <= Capacity(slices, i)
  {
  }

  /** The extent of slice i, in disk sectors, lies behind the slice's reserved area and inside the slice exactly
      when the slice is at least as large as the reserved area. */
  lemma ExtentInsideSlice(slices: seq<Slice>, sectors: nat, i: nat)
    requires i < |slices| && slices[i].size < TWO_32 && 0 <= slices[i].start < 0x8000_0000
    requires Share(slices, sectors, i) < SHARE_LIMIT
    ensures var e := ExtentOf(slices, sectors, i);
      && e.dataStart == slices[i].start + (if i == 0 then 0x2000 else 4)
      && (e.dataStart + e.partSize / 512 <= slices[i].start + slices[i].size <==> slices[i].size >= if i == 0 then 0x2000 else 4)
  {
    var share := Share(slices, sectors, i);
    ShareNotNegative(slices, sectors, i);
    assert share * 2048 / 512 == share * 4;
  }

  /** What the first n slices can take, each as many image sectors as fit behind its reserved area. */
  function RoomBefore(slices: seq<Slice>, n: nat): int
    requires n <= |slices|
  {
    if n == 0 then 0 else RoomBefore(slices, n - 1) + (slices[n - 1].size - if n == 1 then 0x2000 else 4) / 4
  }

  function Least(a: int, b: int): int { if a <= b then a else b }

  /** For slices no smaller than their reserved areas: format succeeds exactly when all slices answer, the image finds
      room in them one after the other, and no slice takes 4 GB of it or more. */
  lemma SucceedsInNumbers(slices: seq<Slice>, sectors: nat)
    requires RoomyEnough(slices)
    ensures Fits(slices, sectors) <==>
      && RoomBefore(slices, |slices|) >= sectors
      && forall k :: 0 <= k < |slices| ==> slices[k].start >= 0 && Taken(slices, sectors, k) < 0x20_0000
  {
    hide Capacity, RoomBefore, SumOfCapacities;
    RoomIsCapacity(slices, |slices|);
    forall k | 0 <= k < |slices| ensures Share(slices, sectors, k) == Taken(slices, sectors, k) {
      RoomIsCapacity(slices, k);
      RoomIsCapacity(slices, k + 1);
    }
    hide Share, Taken;
  }

  /** What slice k takes of an image of that many sectors. */
  function Taken(slices: seq<Slice>, sectors: nat, k: nat): int
    requires k < |slices|
  {
    Least(RoomBefore(slices, k + 1), sectors) - Least(RoomBefore(slices, k), sectors)
  }

  ghost predicate RoomyEnough(slices: seq<Slice>)
  {
    forall k :: 0 <= k < |slices| ==> (if k == 0 then 0x2000 else 4) <= slices[k].size < 0x1_0000_0000
  }

  /** Then each slice holds what the ones before it have left of the image, as far as it goes, behind its reserved area. */
  lemma ExtentsInNumbers(slices: seq<Slice>, sectors: nat, i: nat)
    requires i < |slices| && RoomyEnough(slices) && Fits(slices, sectors) && slices[i].start < 0x8000_0000
    ensures var e := ExtentOf(slices, sectors, i);
      && e.partOffset == Least(RoomBefore(slices, i), sectors) && e.partSize == Taken(slices, sectors, i) * 2048
      && e.dataStart == slices[i].start + if i == 0 then 0x2000 else 4
  {
    hide RoomBefore, SumOfCapacities, Capacity;
    RoomIsCapacity(slices, i);
    RoomIsCapacity(slices, i + 1);
    ShareNotNegative(slices, sectors, i);
  }

  lemma {:induction false} RoomIsCapacity(slices: seq<Slice>, n: nat)
    requires n <= |slices| && RoomyEnough(slices)
    ensures RoomBefore(slices, n) == SumOfCapacities(slices, n)
  {
    if n > 0 {
      RoomIsCapacity(slices, n - 1);
    }
  }

  /** A main slice of 100 sectors is smaller than its reserved area; format takes ten sectors of image for it all the
      same, and their extent lies behind the slice. */
  lemma TinySliceIsAccepted()
    ensures var slices := [Slice(0, 100)];
      && Fits(slices, 10) && ExtentOf(slices, 10, 0) == Extent(0, 0x2000, 20480) && 0x2000 > slices[0].start + slices[0].size
  {
    var slices := [Slice(0, 100)];
    assert Capacity(slices, 0) == (TWO_32 + 100 - 0x2000) / 4;
    assert SumOfCapacities(slices, 1) == SumOfCapacities(slices, 0) + Capacity(slices, 0);
    assert Share(slices, 10, 0) == 10;
  }

  ghost predicate Apart(a: int, m: nat, b: int, n: nat) { a + m <= b || b + n <= a }

  /** Extents of disjoint slices do not overlap on the disk. */
  lemma ExtentsApart(slices: seq<Slice>, sectors: nat, i: nat, j: nat)
    requires i < |slices| && j < |slices| && i != j
    requires forall k :: 0 <= k < |slices| ==>
      Reserved(k) <= slices[k].size < TWO_32 && 0 <= slices[k].start < 0x8000_0000 && Share(slices, sectors, k) < SHARE_LIMIT
    requires Apart(slices[i].start, slices[i].size, slices[j].start, slices[j].size)
    ensures var e, f := ExtentOf(slices, sectors, i), ExtentOf(slices, sectors, j);
      Apart(e.dataStart, e.partSize / 512, f.dataStart, f.partSize / 512)
  {
    hide ExtentOf, Share;
    ExtentInsideSlice(slices, sectors, i);
    ExtentInsideSlice(slices, sectors, j);
  }

  // ----- getstat -----

  function SumOfSizes(info: seq<Extent>, n: nat): nat
    requires n <= |info|
  {
    if n == 0 then 0 else SumOfSizes(info, n - 1) + info[n - 1].partSize / 2048
  }

  /** The size that hdlfs_getstat_filler reports. */
  method GameSize(info: seq<Extent>, n: nat) returns (size: nat)
    requires n <= |info|
    ensures size == U32(SumOfSizes(info, n))
  {
    size := 0;
    for i := 0 to n
      invariant size == U32(SumOfSizes(info, i))
    {
      size := U32(size + info[i].partSize / 2048);
    }
  }

  /** It is the size the image was formatted with. */
  lemma {:induction false} SizesAddUp(info: seq<Extent>, n: nat, sectors: nat, k: nat)
    requires Covers(info, n, sectors) && k <= n
    ensures SumOfSizes(info, k) == if k == n then sectors else info[k].partOffset
  {
    if k > 0 {
      SizesAddUp(info, n, sectors, k - 1);
    }
  }
}
