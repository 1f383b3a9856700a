/** HDLFS: the mounted file descriptor, its transfer loop and its seek. */
module HdlfsDriver {
  import opened ByteStrings
  import opened HdlfsFormat
  import opened HdlfsImage

  /** The block device under the driver, a sequence of sectors per slice. It refuses what lies outside a slice,
      and any call for which fault gives a negative code. */
  class Device<T> {
    var disk: seq<seq<T>>
    var calls: nat
    const fault: nat -> int

    constructor (disk: seq<seq<T>>, fault: nat -> int)
      ensures this.disk == disk && this.fault == fault && calls == 0
    {
      this.disk, this.fault, this.calls := disk, fault, 0;
    }

    predicate InRange(sub: nat, sector: nat, count: nat)
      reads this`disk
    {
      sub < |disk| && sector + count <= |disk[sub]|
    }

    /** HIOCTRANSFER */
    method Transfer(sub: nat, sector: nat, count: nat, write: bool, buffer: array<T>, at: nat) returns (r: int)
      requires at + count <= buffer.Length
      modifies this, buffer
      ensures calls == old(calls) + 1
      ensures r >= 0 <==> old(InRange(sub, sector, count)) && fault(old(calls)) >= 0
      ensures r < 0 || !write ==> disk == old(disk)
      ensures r < 0 || write ==> buffer[..] == old(buffer[..])
      ensures r >= 0 && write ==>
        disk == old(disk)[sub := Splice(old(disk)[sub], sector, old(buffer[at..at + count]))]
      ensures r >= 0 && !write ==>
        buffer[..] == Splice(old(buffer[..]), at, old(disk)[sub][sector..sector + count])
    {
      var code := fault(calls);
      calls := calls + 1;
      if code < 0 {
        return code;
      }
      if !InRange(sub, sector, count) {
        return -EINVAL;
      }
      if write {
        disk := disk[sub := Splice(disk[sub], sector, buffer[at..at + count])];
      } else {
        var data := disk[sub][sector..sector + count];
        forall k | 0 <= k < count {
          buffer[at + k] := data[k];
        }
      }
      return 0;
    }
  }

  /** The sectors of the first n slices, reserved areas included. */
  function TotalSectors<T>(disk: seq<seq<T>>, n: nat): nat
    requires n <= |disk|
  {
    if n == 0 then 0 else TotalSectors(disk, n - 1) + |disk[n - 1]|
  }

  const SEEK_SET := 0
  const SEEK_CUR := 1
  const SEEK_END := 2

  class Descriptor<T> {
    const dev: Device<T>
    var numPartitions: nat
    var currentPartNum: nat
    var relative: nat           // RelativeSectorNumber
    var offset: nat             // in 512-byte sectors
    var size: nat
    var specs: seq<Extent>

    /** hdlfs_mount of a partition whose information block holds info. */
    constructor Mount(dev: Device<T>, info: seq<Extent>, ghost sectors: nat)
      requires Holds(dev.disk, info, |dev.disk|, sectors) && |dev.disk| <= 64
      ensures this.dev == dev && specs == info && numPartitions == |dev.disk|
      ensures size == TotalSectors(dev.disk, |dev.disk|) % 0x1_0000_0000
      ensures Valid(sectors) && InPosition() && offset == 0
      ensures Flat(sectors) == Image(dev.disk, info, |dev.disk|)
    {
      this.dev := dev;
      numPartitions, specs := |dev.disk|, info;
      offset, currentPartNum, relative := 0, 0, 0;
      size := 0;
      new;
      var part := 0;
      while part < numPartitions
        invariant part <= numPartitions == |dev.disk| && specs == info
        invariant offset == currentPartNum == relative == 0
        invariant size == U32(TotalSectors(dev.disk, part))
      {
        size := U32(size + |dev.disk[part]|);
        part := part + 1;
      }
    }

    /** The image lies on the device as the extents say; there is room for one more index. */
    ghost predicate Valid(sectors: nat)
      reads this, dev
    {
      Holds(dev.disk, specs, numPartitions, sectors) && numPartitions <= 64
    }

    /** The offset is the base of the current slice plus the relative sector. */
    predicate InPosition()
      reads this
    {
      && currentPartNum < numPartitions && currentPartNum < |specs|
      && relative <= Length(specs, currentPartNum)
      && offset == Base(specs, currentPartNum) + relative
    }

    /** The image as one flat sequence of sectors. */
    ghost function Flat(sectors: nat): (r: seq<T>)
      reads this, dev
      requires Valid(sectors)
      ensures |r| == sectors * 4
    {
      ImageLength(dev.disk, specs, numPartitions, sectors, numPartitions);
      Image(dev.disk, specs, numPartitions)
    }

    lemma OffsetInImage(sectors: nat)
      requires Valid(sectors) && InPosition()
      ensures offset <= sectors * 4
      ensures offset + Length(specs, currentPartNum) - relative <= sectors * 4
    {
      var rest := Length(specs, currentPartNum) - relative;
      ImageLength(dev.disk, specs, numPartitions, sectors, numPartitions);
      ImageRead(dev.disk, specs, numPartitions, sectors, numPartitions, currentPartNum, relative, rest);
    }

    /** Behind the last sector of a slice begins the next slice, or the image ends. */
    lemma NextSlice(sectors: nat)
      requires Valid(sectors) && InPosition() && relative == Length(specs, currentPartNum)
      ensures offset == if currentPartNum + 1 == numPartitions then sectors * 4 else Base(specs, currentPartNum + 1)
    {
      var e := specs[currentPartNum];
      assert e.partSize / 512 == e.partSize / 2048 * 4;
    }

    /** hdlfs_io_internal. done counts the sectors that were transferred; without refusals of the device they
        are all that the image has left, and the call succeeds exactly when the request ends inside the image. */
    method Io(buffer: array<T>, bytes: int, write: bool, ghost sectors: nat) returns (result: int, ghost done: nat)
      requires Valid(sectors) && InPosition()
      requires 0 <= bytes && bytes / 512 <= buffer.Length
      modifies this`currentPartNum, this`relative, this`offset, dev, buffer
      ensures Valid(sectors)
      ensures bytes % 512 != 0 ==> result == -EINVAL && done == 0 && InPosition()
      ensures bytes % 512 == 0 ==> (result == bytes && done == bytes / 512 && InPosition())
                                   || (result < 0 && done < bytes / 512)
      ensures result < 0 && !InPosition() ==> currentPartNum == numPartitions && offset == sectors * 4
      ensures offset == old(offset) + done <= sectors * 4
      ensures Moved(write, old(Flat(sectors)), old(offset), old(buffer[..]), 0, done, Flat(sectors), buffer[..])
      ensures !write ==> dev.disk == old(dev.disk)
      ensures OnlyImage(old(dev.disk), dev.disk, specs)
      ensures bytes % 512 == 0 && (forall c :: dev.fault(c) >= 0) ==>
        done == if old(offset) + bytes / 512 <= sectors * 4 then bytes / 512 else sectors * 4 - old(offset)
    {
      hide Moved, Image, Holds, OnlyImage;
      result, done := 0, 0;
      OffsetInImage(sectors);
      SmallImage(sectors);
      NothingWritten(dev.disk, specs);
      NothingMoved(write, Flat(sectors), offset, buffer[..], 0);
      if bytes % 512 != 0 {
        return -EINVAL, 0;
      }
      var remaining := bytes / 512;
      var at := 0;
      while remaining > 0
        invariant 0 <= remaining && at + remaining == bytes / 512 && at == done
        invariant Valid(sectors) && InPosition() && result >= 0
        invariant offset == old(offset) + done <= sectors * 4
        invariant Moved(write, old(Flat(sectors)), old(offset), old(buffer[..]), 0, done, Flat(sectors), buffer[..])
        invariant !write ==> dev.disk == old(dev.disk)
        invariant OnlyImage(old(dev.disk), dev.disk, specs)
        decreases remaining, numPartitions - currentPartNum
      {
        ghost var image, data, disk := Flat(sectors), buffer[..], dev.disk;
        var moved;
        result, moved := Step(buffer, at, remaining, write, sectors);
        OnlyImageTwice(old(dev.disk), disk, dev.disk, specs);
        if result < 0 {
          break;
        }
        MovedTwice(write, old(Flat(sectors)), old(offset), old(buffer[..]), done, image, data, moved, Flat(sectors), buffer[..]);
        remaining := remaining - moved;
        at := at + moved;
        done := done + moved;
      }
      result := if result < 0 then result else bytes;
    }

    static lemma NothingMoved(write: bool, image: seq<T>, offset: nat, buffer: seq<T>, at: nat)
      requires offset <= |image| && at <= |buffer|
      ensures Moved(write, image, offset, buffer, at, 0, image, buffer)
    {
      assert Splice(image, offset, []) == image && Splice(buffer, at, []) == buffer;
    }

    static lemma MovedTwice(write: bool, image: seq<T>, offset: nat, buffer: seq<T>, m: nat,
                            image': seq<T>, buffer': seq<T>, n: nat, image'': seq<T>, buffer'': seq<T>)
      requires offset + m + n <= |image| && m + n <= |buffer| && |image'| == |image| && |buffer'| == |buffer|
      requires Moved(write, image, offset, buffer, 0, m, image', buffer')
      requires Moved(write, image', offset + m, buffer', m, n, image'', buffer'')
      ensures Moved(write, image, offset, buffer, 0, m + n, image'', buffer'')
    {
      if write {
        assert buffer[0..m] + buffer[m..m + n] == buffer[0..m + n];
        SpliceTwice(image, offset, buffer[0..m], buffer[m..m + n]);
      } else {
        assert image[offset..offset + m] + image[offset + m..offset + m + n] == image[offset..offset + (m + n)];
        SpliceTwice(buffer, 0, image[offset..offset + m], image[offset + m..offset + m + n]);
      }
    }

    /** One turn of the transfer loop: moves on to the next slice if this one is used up, then transfers what
        the request and the slice have in common. */
    method Step(buffer: array<T>, at: nat, remaining: nat, write: bool, ghost sectors: nat) returns (result: int, moved: nat)
      requires Valid(sectors) && InPosition() && remaining > 0 && at + remaining <= buffer.Length
      modifies this`currentPartNum, this`relative, this`offset, dev, buffer
      ensures Valid(sectors) && moved <= remaining && old(offset) + moved <= sectors * 4
      ensures offset == old(offset) + moved
      ensures result >= 0 ==> InPosition() && (moved > 0 || currentPartNum > old(currentPartNum))
      ensures result < 0 ==> moved == 0 && dev.disk == old(dev.disk) && buffer[..] == old(buffer[..])
      ensures result < 0 ==> Refused(sectors)
      ensures result >= 0 ==> Moved(write, old(Flat(sectors)), old(offset), old(buffer[..]), at, moved,
                                    Flat(sectors), buffer[..])
      ensures result >= 0 && !write ==> dev.disk == old(dev.disk)
      ensures OnlyImage(old(dev.disk), dev.disk, specs)
    {
      hide OnlyImage;
      OffsetInImage(sectors);
      var left := specs[currentPartNum].partSize / 512 - relative;
      if left < 1 {
        NextSlice(sectors);
        currentPartNum := currentPartNum + 1;
        relative := 0;
        left := specs[currentPartNum].partSize / 512;
      }
      var reserved := if currentPartNum == 0 then 0x2000 else 4;
      var count := if remaining > left then left else remaining;
      if currentPartNum < numPartitions {
        OffsetInImage(sectors);
      }
      result := Move(buffer, at, reserved, count, write, sectors);
      moved := if result < 0 then 0 else count;
    }

    /** The request to the device and, when it is granted, the new position. */
    method Move(buffer: array<T>, at: nat, reserved: nat, count: nat, write: bool, ghost sectors: nat) returns (result: int)
      requires Valid(sectors) && reserved == Reserved(currentPartNum) && at + count <= buffer.Length
      requires if InPosition() then relative + count <= Length(specs, currentPartNum) else currentPartNum == numPartitions
      modifies this`relative, this`offset, dev, buffer
      ensures Valid(sectors)
      ensures result >= 0 ==> old(InPosition()) && InPosition()
      ensures result >= 0 ==> offset == old(offset) + count <= sectors * 4 && relative == old(relative) + count
      ensures result < 0 ==> offset == old(offset) && relative == old(relative)
      ensures result < 0 ==> dev.disk == old(dev.disk) && buffer[..] == old(buffer[..])
      ensures result < 0 && InPosition() ==> exists c: nat :: dev.fault(c) < 0
      ensures result >= 0 ==> Moved(write, old(Flat(sectors)), old(offset), old(buffer[..]), at, count,
                                    Flat(sectors), buffer[..])
      ensures result >= 0 && !write ==> dev.disk == old(dev.disk)
      ensures OnlyImage(old(dev.disk), dev.disk, specs)
    {
      hide Image, Holds, Splice, Moved, U32, Length, Base, Reserved, OnlyImage;
      SmallImage(sectors);
      NothingWritten(dev.disk, specs);
      ghost var calls, disk, i, rel, was := dev.calls, dev.disk, currentPartNum, relative, buffer[..];
      if InPosition() {
        InSlice(disk, specs, numPartitions, sectors, i, rel, count);
      }
      result := dev.Transfer(currentPartNum, reserved + relative, count, write, buffer, at);
      if result < 0 {
        assert InPosition() ==> dev.fault(calls) < 0;
        return;
      }
      TransferIsMove(disk, specs, numPartitions, sectors, i, rel, count, write, was, at, dev.disk, buffer[..]);
      offset := U32(offset + count);
      relative := U32(relative + count);
    }

    /** Why a turn can fail: the image has ended, or the device refused for a reason of its own. */
    ghost predicate Refused(sectors: nat)
      reads this, dev
    {
      if InPosition() then exists c: nat :: dev.fault(c) < 0
      else currentPartNum == numPartitions && offset == sectors * 4
    }

    /** A stretch of the image went to the buffer, or a stretch of the buffer to the image. */
    ghost static predicate Moved(write: bool, image: seq<T>, offset: nat, buffer: seq<T>, at: nat, n: nat,
                                 image': seq<T>, buffer': seq<T>)
      requires offset + n <= |image| && at + n <= |buffer|
    {
      if write then image' == Splice(image, offset, buffer[at..at + n]) && buffer' == buffer
      else image' == image && buffer' == Splice(buffer, at, image[offset..offset + n])
    }

    lemma SmallImage(sectors: nat)
      requires Valid(sectors)
      ensures sectors * 4 < 0x8000_0000 && numPartitions == |dev.disk| <= |specs|
    {
    }

    /** What a granted transfer inside a slice means for the image. */
    static lemma TransferIsMove(disk: seq<seq<T>>, info: seq<Extent>, n: nat, sectors: nat, i: nat, rel: nat, count: nat,
                                write: bool, buffer: seq<T>, at: nat, disk': seq<seq<T>>, buffer': seq<T>)
      requires Holds(disk, info, n, sectors) && i < n && rel + count <= Length(info, i) && at + count <= |buffer|
      requires var s := Reserved(i) + rel;
        if write then disk' == disk[i := Splice(disk[i], s, buffer[at..at + count])] && buffer' == buffer
        else disk' == disk && buffer' == Splice(buffer, at, disk[i][s..s + count])
      ensures Holds(disk', info, n, sectors) && OnlyImage(disk, disk', info)
      ensures var offset := Base(info, i) + rel;
        && offset + count <= |Image(disk, info, n)| == sectors * 4
        && Moved(write, Image(disk, info, n), offset, buffer, at, count, Image(disk', info, n), buffer')
    {
      ImageLength(disk, info, n, sectors, n);
      ImageRead(disk, info, n, sectors, n, i, rel, count);
      if write {
        ImageWrite(disk, info, n, sectors, n, i, rel, buffer[at..at + count]);
        WrittenInside(disk, info, n, sectors, i, rel, buffer[at..at + count]);
      } else {
        NothingWritten(disk, info);
      }
      hide Holds, Image, Splice, OnlyImage;
    }

    /** A stretch of a slice's share is on the disk. */
    static lemma InSlice(disk: seq<seq<T>>, info: seq<Extent>, n: nat, sectors: nat, i: nat, rel: nat, count: nat)
      requires Holds(disk, info, n, sectors) && i < n && rel + count <= Length(info, i)
      ensures Reserved(i) + rel + count <= |disk[i]|
    {
    }

    /** hdlfs_lseek, offsets in 2048-byte sectors. Seeking from the start reaches any sector of the image. For the
        other origins the slice is still chosen by the argument alone, so the position is a proper one exactly
        when the new offset happens to lie in that slice. */
    method Lseek(arg: int, whence: int, ghost sectors: nat) returns (result: int)
      requires Valid(sectors) && -0x8000_0000 <= arg < 0x8000_0000
      modifies this`currentPartNum, this`relative, this`offset
      ensures Valid(sectors) && Flat(sectors) == old(Flat(sectors))
      ensures !(0 <= arg < sectors) ==>
        result == -EINVAL && currentPartNum == old(currentPartNum) && relative == old(relative) && offset == old(offset)
      ensures 0 <= arg < sectors ==>
        && SliceHolds(specs, numPartitions, currentPartNum, arg)
        && offset == (if whence == 0 then arg * 4 else if whence == 1 then (old(offset) + arg * 4) % 0x1_0000_0000
                      else if whence == 2 then (size - arg * 4) % 0x1_0000_0000 else old(offset))
        && result == offset / 4
        && (InPosition() <==>
            Base(specs, currentPartNum) <= offset <= Base(specs, currentPartNum) + Length(specs, currentPartNum))
      ensures 0 <= arg < sectors && whence == SEEK_SET ==> InPosition() && offset == arg * 4 && result == arg
    {
      hide Image, Splice;
      var i := SliceOf(U32(arg), sectors);
      if i == numPartitions {
        return -EINVAL;
      }
      SliceBounds(specs, numPartitions, sectors, i);
      hide Holds, Covers;
      if whence == SEEK_SET {
        offset := U32(U32(arg) * 4);
      } else if whence == SEEK_CUR {
        offset := U32(offset + U32(arg) * 4);
      } else if whence == SEEK_END {
        offset := U32(size - U32(arg) * 4);
      }
      ProperIff(offset, Base(specs, i), Length(specs, i));
      relative := U32(offset - specs[i].partOffset * 4);
      currentPartNum := i;
      result := offset / 4;
    }

    /** The loop that looks for the slice of a sector. */
    method SliceOf(o: nat, ghost sectors: nat) returns (i: nat)
      requires Valid(sectors)
      ensures i <= numPartitions <= |specs| && (i < numPartitions <==> o < sectors)
      ensures i < numPartitions ==> SliceHolds(specs, numPartitions, i, o)
    {
      assert Covers(specs, numPartitions, sectors) && numPartitions <= |specs|;
      hide Holds, Covers;
      i := 0;
      while i < numPartitions
        invariant i <= numPartitions
        invariant forall k :: 0 <= k < i ==> !SliceHolds(specs, numPartitions, k, o)
      {
        if specs[i].partOffset <= o && o < specs[i].partOffset + specs[i].partSize / 2048 {
          SliceBounds(specs, numPartitions, sectors, i);
          return;
        }
        i := i + 1;
      }
      if o < sectors {
        SomeSliceHolds(specs, numPartitions, sectors, numPartitions, o);
      }
    }
  }

  lemma ProperIff(offset: nat, base: nat, len: nat)
    requires base + len < 0x8000_0000
    ensures offset < TWO_32 ==>
      (U32(offset - base) <= len && offset == base + U32(offset - base) <==> base <= offset <= base + len)
  {
  }

  /** Slice i holds image sector o, in 2048-byte sectors. */
  predicate SliceHolds(info: seq<Extent>, n: nat, i: nat, o: nat)
  {
    i < n && i < |info| && info[i].partOffset <= o < info[i].partOffset + info[i].partSize / 2048
  }

  lemma {:induction false} SomeSliceHolds(info: seq<Extent>, n: nat, sectors: nat, k: nat, o: nat)
    requires Covers(info, n, sectors) && k <= n
    requires o < if k == n then sectors else info[k].partOffset
    ensures exists i :: 0 <= i < k && SliceHolds(info, n, i, o)
  {
    if k > 0 {
      if o < info[k - 1].partOffset {
        SomeSliceHolds(info, n, sectors, k - 1, o);
      } else {
        assert SliceHolds(info, n, k - 1, o);
      }
    }
  }

  /** Slices end inside the image, so no slice is larger than it. */
  lemma SliceBounds(info: seq<Extent>, n: nat, sectors: nat, i: nat)
    requires Covers(info, n, sectors) && i < n
    ensures info[i].partOffset + info[i].partSize / 2048 <= sectors
    ensures Length(info, i) == info[i].partSize / 2048 * 4
  {
    OffsetsGrow(info, n, sectors, i, n - 1);
    assert info[i].partSize % 2048 == 0;
  }

  lemma {:induction false} OffsetsGrow(info: seq<Extent>, n: nat, sectors: nat, i: nat, j: nat)
    requires Covers(info, n, sectors) && i <= j < n
    ensures i < j ==> info[i].partOffset + info[i].partSize / 2048 <= info[j].partOffset
    decreases j - i
  {
    if i < j {
      OffsetsGrow(info, n, sectors, i, j - 1);
    }
  }

  function ThreeSlices(): seq<Extent>
  {
    [Extent(0, 0x2000, 2048), Extent(1, 0x3004, 2048), Extent(2, 0x4004, 2048)] + seq(62, _ => Extent(0, 0, 0))
  }

  function SmallDisk(): seq<seq<int>> { [seq(0x2004, _ => 0), seq(8, _ => 1), seq(8, _ => 2)] }

  lemma SmallDiskHolds()
    ensures HdlfsImage.Holds(SmallDisk(), ThreeSlices(), 3, 3) && |SmallDisk()| == 3
    ensures var info := ThreeSlices();
      |info| == MAX_EXTENTS && Base(info, 0) == 0 && Length(info, 0) == 4 && Base(info, 2) == 8
    ensures SliceHolds(ThreeSlices(), 3, 0, 0) && forall i :: SliceHolds(ThreeSlices(), 3, i, 0) ==> i == 0
  {
    assert 2048 / 512 == 4 && 2048 / 2048 == 1;
  }

  /** A relative seek by nothing loses the position: of three slices of one sector the third is reached from the
      start, and SEEK_CUR with argument 0 then selects the first, in which the offset is not. */
  method RelativeSeekCanMiss() returns (d: Descriptor<int>, first: int, second: int)
    ensures d.Valid(3) && first == second == 2 && d.offset == 8 == Base(d.specs, 2)
    ensures d.currentPartNum == 0 && !d.InPosition()
  {
    hide Image, HdlfsImage.Holds, ThreeSlices, SmallDisk, SliceHolds, Base, Length;
    SmallDiskHolds();
    var dev := new Device<int>(SmallDisk(), _ => 0);
    d := new Descriptor<int>.Mount(dev, ThreeSlices(), 3);
    first := d.Lseek(2, SEEK_SET, 3);
    second := d.Lseek(0, SEEK_CUR, 3);
  }

  // ----- mount -----

  const MAX_AVAILABLE_FDS := 2
  const GAME_INFO_SIZE := 1024

  /** An element of FD_List: the open partition, or a negative number, and what the last mount that read its
      information block in full has set up. */
  datatype Unit<T> = Unit(mountFd: int, file: Descriptor?<T>)

  /** What the APA driver says while a partition is mounted: the results of getstat, open and the read of the
      information block, and whether the partition is a game. */
  datatype DriverReplies = DriverReplies(stat: int, isGame: bool, fd: int, got: int)

  predicate Reached(unit: nat, a: DriverReplies) { unit < MAX_AVAILABLE_FDS && a.stat >= 0 && a.isGame && a.fd >= 0 }

  /** hdlfs_mount. The descriptor is set up exactly when every step succeeds and the block is read in full; the call
      reports success in these cases and, wrongly, when the block is read in part. After any failed read the unit
      stays open with what it had before. */
  method HdlfsMount<T>(list: array<Unit<T>>, unit: nat, a: DriverReplies, dev: Device<T>, info: seq<Extent>, ghost sectors: nat)
    returns (result: int)
    requires list.Length == MAX_AVAILABLE_FDS
    requires Reached(unit, a) && a.got == GAME_INFO_SIZE ==>
      HdlfsImage.Holds(dev.disk, info, |dev.disk|, sectors) && |dev.disk| <= 64
    modifies list
    ensures result >= 0 <==> Reached(unit, a) && a.got >= 0
    ensures unit >= MAX_AVAILABLE_FDS ==> result == -19
    ensures unit < MAX_AVAILABLE_FDS && a.stat < 0 ==> result == a.stat
    ensures unit < MAX_AVAILABLE_FDS && a.stat >= 0 && !a.isGame ==> result == -24
    ensures unit < MAX_AVAILABLE_FDS && a.stat >= 0 && a.isGame && a.fd < 0 ==> result == a.fd
    ensures Reached(unit, a) && a.got != GAME_INFO_SIZE ==> result == a.got
    ensures unit < MAX_AVAILABLE_FDS ==> list[unit].mountFd == if a.stat >= 0 && a.isGame then a.fd else old(list[unit]).mountFd
    ensures Reached(unit, a) && a.got == GAME_INFO_SIZE ==>
      var d := list[unit].file;
      && result == unit && d != null && fresh(d) && d.dev == dev && d.specs == info && d.offset == 0
      && d.Valid(sectors) && d.InPosition() && d.Flat(sectors) == Image(dev.disk, info, |dev.disk|)
    ensures unit < MAX_AVAILABLE_FDS && !(Reached(unit, a) && a.got == GAME_INFO_SIZE) ==> list[unit].file == old(list[unit]).file
    ensures forall u :: 0 <= u < list.Length && u != unit ==> list[u] == old(list[u])
  {
    if unit >= MAX_AVAILABLE_FDS {
      return -ENODEV;
    }
    result := a.stat;
    if result >= 0 {
      if a.isGame {
        list[unit] := list[unit].(mountFd := a.fd);
        if a.fd >= 0 {
          result := a.got;
          if result == GAME_INFO_SIZE {
            var d := new Descriptor<T>.Mount(dev, info, sectors);
            list[unit] := list[unit].(file := d);
            result := unit;
          }
        } else {
          result := a.fd;
        }
      } else {
        result := -EMFILE;
      }
    }
  }

  /** hdlfs_open: any unit with an open partition is handed out. */
  method HdlfsOpen<T>(list: array<Unit<T>>, unit: nat) returns (result: int, file: Descriptor?<T>)
    requires list.Length == MAX_AVAILABLE_FDS
    ensures result == if unit < MAX_AVAILABLE_FDS && list[unit].mountFd >= 0 then unit else -ENODEV
    ensures file == if result >= 0 then list[unit].file else null
  {
    if unit < MAX_AVAILABLE_FDS && list[unit].mountFd >= 0 {
      return unit, list[unit].file;
    }
    return -ENODEV, null;
  }

  /** A game is mounted, then another one of whose information block only 512 bytes can be read: the second mount
      reports success, and opening the unit gives the first game's extents on the second game's partition. */
  method ShortReadKeepsTheOldGame() returns (second: int, opening: int, fd: int, file: Descriptor?<int>)
    ensures second == 512 && opening == 0 && fd == 8
    ensures file != null && file.specs == ThreeSlices()
  {
    hide Image, HdlfsImage.Holds, ThreeSlices, SmallDisk;
    SmallDiskHolds();
    var list := new Unit<int>[2](_ => Unit(-1, null));
    var dev := new Device<int>(SmallDisk(), _ => 0);
    var other := new Device<int>([], _ => 0);
    var first := HdlfsMount(list, 0, DriverReplies(0, true, 7, GAME_INFO_SIZE), dev, ThreeSlices(), 3);
    second := HdlfsMount(list, 0, DriverReplies(0, true, 8, 512), other, [], 0);
    fd := list[0].mountFd;
    opening, file := HdlfsOpen(list, 0);
  }

  // ----- from format to a flat file -----

  /** A formatted partition can be mounted: the disk whose slices have the sizes that format saw holds the image. */
  lemma FormatThenMount<T>(slices: seq<Slice>, sectors: nat, info: seq<Extent>, disk: seq<seq<T>>)
    requires 0 < |slices| <= 64 && sectors < TWO_32 && |info| == MAX_EXTENTS
    requires Fits(slices, sectors)
    requires forall i :: 0 <= i < MAX_EXTENTS ==>
      info[i] == if i < |slices| then ExtentOf(slices, sectors, i) else Extent(0, 0, 0)
    requires |disk| == |slices|
    requires forall i :: 0 <= i < |slices| ==> Reserved(i) <= slices[i].size == |disk[i]| < TWO_32
    ensures HdlfsImage.Holds(disk, info, |disk|, sectors)
  {
    FormattedCovers(slices, sectors, info);
    FewSectors(slices, sectors, |slices|);
    forall i | 0 <= i < |disk| ensures Reserved(i) + Length(info, i) <= |disk[i]| {
      ShareNotNegative(slices, sectors, i);
      assert info[i].partSize == Share(slices, sectors, i) * 2048;
      assert Share(slices, sectors, i) * 2048 / 512 == Share(slices, sectors, i) * 4;
    }
  }

  lemma {:induction false} FewSectors(slices: seq<Slice>, sectors: nat, k: nat)
    requires k <= |slices| && Laid(slices, sectors, k)
    ensures Used(slices, sectors, k) <= k * 0x1F_FFFF
  {
    hide Used, Share, Capacity;
    if k == 0 {
      NothingUsed(slices, sectors);
    } else {
      FewSectors(slices, sectors, k - 1);
      UsedGrows(slices, sectors, k - 1);
    }
  }

  lemma UsedGrows(slices: seq<Slice>, sectors: nat, k: nat)
    requires k < |slices|
    ensures Used(slices, sectors, k + 1) == Used(slices, sectors, k) + Share(slices, sectors, k)
  {
  }

  /** What a program does with an open image. Transfers are whole 512-byte sectors. */
  datatype Op<T> = Seek(to: int) | Read(count: nat) | Write(data: seq<T>)

  datatype Out<T> = Position(at: int) | Got(data: seq<T>) | Put

  /** A flat file of sectors with a position. */
  datatype FlatFile<T> = FlatFile(image: seq<T>, pos: nat)

  /** The operation stays inside the image. */
  predicate Inside<T>(f: FlatFile<T>, op: Op<T>)
  {
    match op
    case Seek(to) => 0 <= to && to * 4 < |f.image|
    case Read(count) => f.pos + count <= |f.image| && count * 512 < 0x8000_0000
    case Write(data) => f.pos + |data| <= |f.image| && |data| * 512 < 0x8000_0000
  }

  function After<T>(f: FlatFile<T>, op: Op<T>): FlatFile<T>
    requires Inside(f, op)
  {
    match op
    case Seek(to) => FlatFile(f.image, to * 4)
    case Read(count) => FlatFile(f.image, f.pos + count)
    case Write(data) => FlatFile(Splice(f.image, f.pos, data), f.pos + |data|)
  }

  function Answer<T>(f: FlatFile<T>, op: Op<T>): Out<T>
    requires Inside(f, op)
  {
    match op
    case Seek(to) => Position(to)
    case Read(count) => Got(f.image[f.pos..f.pos + count])
    case Write(_) => Put
  }

  predicate AllInside<T>(f: FlatFile<T>, ops: seq<Op<T>>)
    decreases |ops|
  {
    ops == [] || (Inside(f, ops[0]) && AllInside(After(f, ops[0]), ops[1..]))
  }

  function Answers<T>(f: FlatFile<T>, ops: seq<Op<T>>): seq<Out<T>>
    requires AllInside(f, ops)
    decreases |ops|
  {
    if ops == [] then [] else [Answer(f, ops[0])] + Answers(After(f, ops[0]), ops[1..])
  }

  function Final<T>(f: FlatFile<T>, ops: seq<Op<T>>): FlatFile<T>
    requires AllInside(f, ops)
    decreases |ops|
  {
    if ops == [] then f else Final(After(f, ops[0]), ops[1..])
  }

  lemma SpliceWhole<T>(s: seq<T>, data: seq<T>)
    requires |s| == |data|
    ensures Splice(s, 0, data) == data
  {
  }

  /** Any program of seeks, reads and writes inside the image, run on a mounted descriptor over a device that
      does not fail, gets the answers of the flat file and leaves the image the flat file would be, and everything on
      the disk outside the image as it was. */
  method RunProgram<T(0)>(d: Descriptor<T>, ops: seq<Op<T>>, ghost sectors: nat) returns (outs: seq<Out<T>>)
    requires d.Valid(sectors) && d.InPosition() && forall c :: d.dev.fault(c) >= 0
    requires AllInside(FlatFile(d.Flat(sectors), d.offset), ops)
    modifies d, d.dev
    ensures d.Valid(sectors) && d.InPosition()
    ensures d.specs == old(d.specs) && OnlyImage(old(d.dev.disk), d.dev.disk, d.specs)
    ensures outs == Answers(old(FlatFile(d.Flat(sectors), d.offset)), ops)
    ensures FlatFile(d.Flat(sectors), d.offset) == Final(old(FlatFile(d.Flat(sectors), d.offset)), ops)
    decreases |ops|
  {
    hide OnlyImage, HdlfsImage.Holds;
    d.SmallImage(sectors);
    NothingWritten(d.dev.disk, d.specs);
    if ops == [] {
      return [];
    }
    ghost var disk := d.dev.disk;
    var out := RunOne(d, ops[0], sectors);
    ghost var next := d.dev.disk;
    outs := RunProgram(d, ops[1..], sectors);
    OnlyImageTwice(disk, next, d.dev.disk, d.specs);
    outs := [out] + outs;
  }

  method RunOne<T(0)>(d: Descriptor<T>, op: Op<T>, ghost sectors: nat) returns (out: Out<T>)
    requires d.Valid(sectors) && d.InPosition() && forall c :: d.dev.fault(c) >= 0
    requires Inside(FlatFile(d.Flat(sectors), d.offset), op)
    modifies d, d.dev
    ensures d.Valid(sectors) && d.InPosition()
    ensures d.specs == old(d.specs) && OnlyImage(old(d.dev.disk), d.dev.disk, d.specs)
    ensures out == Answer(old(FlatFile(d.Flat(sectors), d.offset)), op)
    ensures FlatFile(d.Flat(sectors), d.offset) == After(old(FlatFile(d.Flat(sectors), d.offset)), op)
  {
    hide OnlyImage, HdlfsImage.Holds, Image;
    d.SmallImage(sectors);
    NothingWritten(d.dev.disk, d.specs);
    match op {
      case Seek(to) =>
        var r := d.Lseek(to, SEEK_SET, sectors);
        out := Position(r);
      case Read(count) =>
        out := RunRead(d, count, sectors);
      case Write(data) =>
        RunWrite(d, data, sectors);
        out := Put;
    }
  }

  method RunRead<T(0)>(d: Descriptor<T>, count: nat, ghost sectors: nat) returns (out: Out<T>)
    requires d.Valid(sectors) && d.InPosition() && forall c :: d.dev.fault(c) >= 0
    requires d.offset + count <= sectors * 4
    modifies d, d.dev
    ensures d.Valid(sectors) && d.InPosition()
    ensures d.specs == old(d.specs) && OnlyImage(old(d.dev.disk), d.dev.disk, d.specs)
    ensures out == Got(old(d.Flat(sectors))[old(d.offset)..old(d.offset) + count])
    ensures d.Flat(sectors) == old(d.Flat(sectors)) && d.offset == old(d.offset) + count
  {
    hide Image, HdlfsImage.Holds, OnlyImage;
    var buffer := new T[count];
    ghost var image, at, blank := d.Flat(sectors), d.offset, buffer[..];
    assert count * 512 % 512 == 0 && count * 512 / 512 == count;
    var r, done := d.Io(buffer, count * 512, false, sectors);
    SpliceWhole(blank, image[at..at + count]);
    out := Got(buffer[..]);
  }

  method RunWrite<T(0)>(d: Descriptor<T>, data: seq<T>, ghost sectors: nat)
    requires d.Valid(sectors) && d.InPosition() && forall c :: d.dev.fault(c) >= 0
    requires d.offset + |data| <= sectors * 4
    modifies d, d.dev
    ensures d.Valid(sectors) && d.InPosition()
    ensures d.specs == old(d.specs) && OnlyImage(old(d.dev.disk), d.dev.disk, d.specs)
    ensures d.Flat(sectors) == Splice(old(d.Flat(sectors)), old(d.offset), data)
    ensures d.offset == old(d.offset) + |data|
  {
    hide Image, HdlfsImage.Holds, OnlyImage;
    var buffer := new T[|data|](i requires 0 <= i < |data| => data[i]);
    assert buffer[..] == data;
    assert |data| * 512 % 512 == 0 && |data| * 512 / 512 == |data|;
    var r, done := d.Io(buffer, |data| * 512, true, sectors);
    assert buffer[0..|data|] == data;
  }
}
