# pfsshell: verified models of its stateful parts

pfsshell works on PlayStation 2 hard disks from a PC. This project models, in Dafny, the five parts of it that
hold state, do arithmetic or define a format, keeps their branches and constants, and proves what they are for:

* **`pfs2tar`** (`ByteStrings`, `Octal`, `Calendar`, `Clock`, `Modes`, `PfsTree`, `UstarHeader`, `HeaderNumbers`,
  `Walk`, `WalkOrder`, `ArchiveNumbers`, `Restore`, `RoundTripEntry`, `RoundTrip`, `RoundTripTree`,
  `RoundTripArchive`): backing up a partition into a tar file and restoring it. The archive follows the ustar
  Interchange Format (pax, EXTENDED DESCRIPTION, POSIX.1-2017 XCU), time stamps follow section 4.16 of POSIX.1-2017
  XBD. The main results are `RestoreMerges`, what a restore from the archive of any disk makes of whatever a partition
  holds, and `BackupThenRestore`, exactly when a partition restored into an empty one is the same tree.
* **HDLFS** (`HdlfsFormat`, `HdlfsImage`, `HdlfsDriver`): a disc image spread over partition slices. The main result
  is `RunProgram`: any program of seeks, reads and writes gets the answers of one flat file.
* **`pfsd`**, the daemon that shares a disk among clients, and its client library (`PfsdTables`, `PfsdRuns`,
  `PfsdHistory`, `PfsdDaemon`, `PfsdProtocol`, `PfsdService`, `PfsdCalls`, `PfsdTransfer`): the tables of open files,
  mounts and connections, the semaphore and shared-memory protocol with single-byte interleaving, and the chunked
  transfers. The main results are `ReachableStatesKeepInv`, `EveryRunIsATrace`, and what clients can rely on, said by
  their own requests and replies: `FinishedCallsOnDescriptors`, `UmountIsRefusedIff`, `SharedIffSameDevice`.
* **`parse_line`** (`ParseLine`, `ParseGrammar`): the tokenizer of the shell, which cuts its input in place, and the
  grammar of the lines that it accepts.
* **`mkpart`** (`Mkpart`): the greedy split of a requested size.

Code that updates arrays, buffers and descriptors is modelled by methods over `array`s and class fields; each method
is proved to perform a specification function, and the theorems are about those functions. What they mean is said
again without them, by numbers and by histories: a clock that ticks for the time stamps, byte positions and octal
digits for headers and archives, granted and released requests for the daemon's tables, a grammar for command lines.
Bytes are numbers below 256, C strings end at the first NUL, and 32-bit wrap-around is written out as `U32`.

Where the code does less than it seems to promise, the model follows the code and the exact condition is proved,
with an input that fails:

* A header's checksum obeys the ustar rule exactly when the name, and a link's target, are ASCII, because plain
  `char` is signed on the usual targets (`HeaderIsUstar`, `AccentSpoilsTheChecksum`).
* A name comes back from the archive exactly when it has at most 100 bytes (`NameReadsBackIffShort`, `LongNameIsLost`).
* A foreign or existing entry is skipped by the right number of blocks exactly when, for a file, its size plus 511
  stays below 4 GiB and, for a directory or link, the part of a long name behind its cut leaves the size field alone
  or makes it a number that skips nothing (`SkipIsExact`). A file of 4 GiB less one byte is not skipped at all
  (`LargestFileIsNotSkipped`); behind a directory "P/" and 200 times '1' the reader skips 1.2 GB
  (`DigitsInTheSizeField`).
* A partition comes back from its backup as it was exactly when each node below the root has a name of at most 100
  bytes, is no file of 4 GiB or more, and is carried: 16 mode bits and a stamp that survives, or a link target of at
  most 100 bytes (`BackupThenRestore`).
* A time stamp survives exactly when it is a real date whose shifted POSIX time lies in [0, 2^32) (`StampRoundTrip`,
  `StampsThatChange`).
* The directories above a restored path exist afterwards exactly when no file or link stands in their way
  (`ParentsAreMade`, `LinkInTheWay`).
* HDLFS seeks relative to the position or the end choose the slice by the argument alone; the position they leave is
  a proper one exactly when the new offset lies in that slice (`Lseek`, `RelativeSeekCanMiss`).
* An HDLFS extent stays in its slice exactly when the slice is at least as large as its reserved area
  (`ExtentInsideSlice`, `TinySliceIsAccepted`).
* Mounting HDLFS reports success without having mounted exactly when the information block is read in part; the unit
  is then open with the extents of an earlier game (`HdlfsMount`, `ShortReadKeepsTheOldGame`).
* The daemon never unmounts in the library. A device whose last user has let go of it, by umount or disconnect, is
  refused to everyone from then on (`UnmountIsNeverReached`, `LastUmountStrands`, `DisconnectStrandsIff`,
  `MountedDeviceIsGrantedIff`, `StrandedForever`); one client is enough for that (`OneClientStrands`).
* Exactly the known requests other than GETMOUNTPOINT are answered once (`AnsweredOnceIff`); after GETMOUNTPOINT the
  next call of that client is misled (`MountPointMisleads`, `RefusedCloseLooksDone`), and the call of another client
  may get the wrong bytes (`AnotherClientReadsForeignByte`).
* The daemon's own check admits a 32nd client; its listening socket then goes behind the end of the poll array, in
  this case and no other (`AddNewClient`, `TooManyClients`).
* A chunked transfer whose last chunk fails adds the error to the count. The caller is told the error itself exactly
  when an earlier chunk failed or there was no earlier one, and can rely on that exactly for requests that fit the
  segment (`ErrorIsToldIff`, `AlwaysToldIff`). With a segment of one byte and two bytes to read, a second request that
  fails with -5 is told as -4 (`ErrorIsMisread`).

What the libraries below promise is part of the model: `Find` (a mounted partition is a tree, looked up by path),
`Mkdir`, `Symlink`, `Truncated`, `Appended`, `ChangeMode` and `ChangeTimes` (a partition being restored; making a node
does not touch the attributes of its directory, and path components are taken literally), `Device.Transfer` (refuses
what lies outside a slice), `LibraryMount` (busy when the container or the device is taken, otherwise 0 or another
error), and the library's open and close (fresh descriptors; closing an open one succeeds, closing -1 fails). Answers
of the outside world, such as refused requests or failing transfers, are parameters. `long` has 64 bits.

## Model

| member | source | states |
|---|---|---|
| Calendar.GmTimeOfTimeGm | src/pfs2tar.c:101-114 | gmtime undoes timegm on every valid calendar date of the proleptic Gregorian calendar |
| Calendar.TimeGmOfGmTime | src/pfs2tar.c:182-201 | timegm undoes gmtime on every number of seconds |
| Calendar.StampRoundTrip | src/pfs2tar.c:101-114 | for all eight-byte stamps: stamp, mtime field, stamp is the identity exactly when the stamp is a valid date with an unused first byte and its time plus nine hours lies in [0, 2^32) |
| Clock.TimeGmCountsSeconds | src/pfs2tar.c:101-114 | timegm is the number of ticks of a clock that starts on 1 January 1970 and runs through the ends of minutes, hours, days, months and leap years |
| Clock.EveryDateIsReached | src/pfs2tar.c:101-114 | every valid date from then on is reached after as many ticks as timegm says |
| Calendar.StampsThatChange | src/pfs2tar.c:101-114 | 30 February 2000 and 1 January 1960 come back as something else |
| Octal.FieldRoundTrip | src/pfs2tar.c:323-328 | an octal field of w digits reads back as the number written exactly when the number is below 8^w |
| Modes.ConvertModeToPosix | src/pfs2tar.c:116-165 | the chain of bit copies maps the kind and keeps the twelve permission bits |
| Modes.ConvertPosixModeToIomanX | src/pfs2tar.c:203-243 | the chain of bit copies maps the kind back and keeps the twelve permission bits |
| Modes.ModeRoundTrip | src/pfs2tar.c:116-243 | mode, header field, mode is the identity exactly for 16-bit modes of one of the three kinds or none |
| UstarHeader.TarChecksum | src/pfs2tar.c:246-252 | the loop computes the signed-char sum modulo 2^32 with the checksum field read as spaces |
| UstarHeader.ChecksumIffAscii | src/pfs2tar.c:246-252 | the written checksum obeys the ustar rule exactly when no byte outside the field has its high bit set |
| UstarHeader.HeaderIsUstar | src/pfs2tar.c:282-336 | for names of at most 100 bytes every byte of the header is the one the ustar layout prescribes, except that owner and device numbers are left NUL where the format asks for digits; the checksum obeys the rule exactly when the name and the stored link target are ASCII |
| UstarHeader.AccentSpoilsTheChecksum | src/pfs2tar.c:246-252 | a name with one accented letter whose header every reader must reject |
| UstarHeader.CutHeader | src/pfs2tar.c:302-336 | the header of a name that is cut begins with a slash, and its size field is a file's size or eleven zeros under the tail of the name |
| HeaderNumbers.HeaderByte | src/pfs2tar.c:282-336 | every byte of any header but the checksum, by its number, for names that fit and names that are cut |
| HeaderNumbers.PlacementExactly | src/pfs2tar.c:285-318 | a name is whole up to 100 bytes, otherwise cut at its last slash before position 155, otherwise skipped |
| HeaderNumbers.NameInHeader | src/pfs2tar.c:313-322 | what is behind the cut is the name field, what is in front of it the prefix field as far as the rest has not run over it |
| HeaderNumbers.NumbersInHeader | src/pfs2tar.c:323-336 | mode, seconds since the Epoch plus nine hours, kind and size are spelled in octal at their places |
| HeaderNumbers.ChecksumOfAnyHeader | src/pfs2tar.c:246-252 | for any name the checksum obeys the rule exactly when what is left of the name, and the link target, are ASCII |
| HeaderNumbers.RuleSumIs | src/pfs2tar.c:246-252 | the rule's sum is 256 for a block of NULs, and each byte outside the field counts as it is |
| Walk.Backup.TarCFile | src/pfs2tar.c:256-345 | appends the entry of the node, or nothing for files of 4 GiB, unplaceable or empty names |
| Walk.Backup.PutName | src/pfs2tar.c:285-322 | places a name whole, cut at the last slash before column 155, or not at all |
| Walk.Backup.WriteBlocks | src/pfs2tar.c:337-342 | the block loop writes the file's bytes followed by filling up to a whole block |
| ArchiveNumbers.EntryInNumbers | src/pfs2tar.c:256-345 | the entry that TarCFile appends: its numbers, the bytes of the file, NULs to a multiple of 512; the time is the seconds since the Epoch plus 32400 |
| Walk.Backup.DoWrappedFtw | src/pfs2tar.c:31-77 | the walk in one 257-byte path buffer writes exactly the archive of the nodes it visits, never leaves the buffer, and on success leaves the path it found |
| WalkOrder.VisitsExactlyTheTree | src/pfs2tar.c:31-77 | a successful walk reports exactly the nodes of the tree, each under its own path |
| WalkOrder.ParentsFirst | src/pfs2tar.c:31-77 | no node is visited twice and every directory comes before all that lies in it |
| WalkOrder.SucceedsIffAllFit | src/pfs2tar.c:54-57 | the walk succeeds exactly when every name fits what its parent's path leaves of the buffer |
| PfsTree.PlaceOfPathOf | src/pfs2tar.c:58-59 | splitting a path string at its slashes gives back the names it was joined from |
| Restore.Reader.EnsureParentDirsExist | src/pfs2tar.c:390-403 | cutting the copied path at each slash in turn, clipped at 255 bytes, performs the specified makings |
| RoundTripTree.ParentsAreMade | src/pfs2tar.c:390-403 | exactly the missing directories above the path are made, top down, and all are there afterwards if and only if no file or link is in the way |
| RoundTripTree.LinkInTheWay | src/pfs2tar.c:390-403 | a link at "a" keeps the directory above "a/b" from being made |
| Restore.Reader.CopyData | src/pfs2tar.c:504-512 | the read and write loop appends exactly the announced number of bytes, whatever the uninitialised buffer holds at each turn of a truncated archive |
| Restore.Reader.OneEntry | src/pfs2tar.c:416-533 | one header is handled as the specification says in every branch, file position included |
| Restore.Reader.RestoreFromTar | src/pfs2tar.c:405-537 | the loop over the archive leaves the partition that the specification folds out of it |
| RoundTripEntry.HeaderReadsBack | src/pfs2tar.c:416-437 | for names of at most 100 bytes, name, size and type read back as written, and mode, time and target as the format carries them |
| RoundTripEntry.NameReadsBackIffShort | src/pfs2tar.c:417-418 | the name of an archived entry comes back exactly when it has at most 100 bytes |
| RoundTripEntry.LongNameIsLost | src/pfs2tar.c:285-318 | a name of 102 bytes that is archived in two parts and does not come back |
| RoundTripEntry.SkipIsExact | src/pfs2tar.c:440-448 | the reader that skips an archived entry comes to the next header exactly when a file rounds up below 4 GiB, and the name of a directory or link leaves a size field that skips nothing |
| RoundTripEntry.LargestFileIsNotSkipped | src/pfs2tar.c:440-448 | over a file of 4 GiB less one byte the reader skips nothing |
| RoundTripEntry.DigitsInTheSizeField | src/pfs2tar.c:302-336 | a directory whose long name makes the reader skip 1,227,133,952 bytes |
| RoundTripEntry.EntryIsReadWhole | src/pfs2tar.c:412-533 | whichever branch an entry takes that can be stepped over, the reader ends up behind its last block, and the node is created from what its header carries |
| RoundTrip.ReaderStaysAligned | src/pfs2tar.c:405-537 | over any list of entries that can be stepped over, whatever their stamps, modes and targets, the loop heads are exactly the writer's headers and the partition changes entry by entry |
| RoundTrip.RestoreOnlyAdds | src/pfs2tar.c:454-461 | without overwrite, a restore from any bytes whatever leaves every existing node unchanged |
| RoundTripTree.EffectCreates | src/pfs2tar.c:462-529 | an entry at a free place with nothing in the way creates the missing directories above it and its own node, and changes nothing else |
| RoundTripTree.RootIsSkipped | src/pfs2tar.c:444-449 | the entry of the partition root itself changes nothing |
| RoundTripTree.CarriedIff | src/pfs2tar.c:101-243 | a node comes back as it was exactly for 16 mode bits and a storable stamp, or a target of at most 100 bytes |
| RoundTripTree.FoldMerges | src/pfs2tar.c:405-537 | the entries of a walk, one by one, merge what they stand for into any partition: what is there stays or is overwritten, the rest is added where nothing is in the way |
| RoundTripArchive.WrappedFtw | src/pfs2tar.c:79-97 | walks the partition from its root and appends its archive |
| RoundTripArchive.BackupDisk | src/pfs2tar.c:347-388 | the archive holds the chosen partitions in order and ends with two zero blocks |
| RoundTripArchive.OnePartitionMore | src/pfs2tar.c:356-372 | a listed partition is archived, behind those before it, exactly if it is a main PFS partition, asked for or all are, and can be mounted |
| RoundTripArchive.NamesInArchive | src/pfs2tar.c:268-281 | archive names are the identifier, a slash and the names from the root joined by slashes, cut off at 511 bytes |
| RoundTripArchive.RestoreActsOnOwnEntries | src/pfs2tar.c:440-448 | over the archive of any disk whose archived entries can be stepped over, restoring P acts on exactly the entries archived under "P/", on any partition contents |
| RoundTripArchive.ReadableIfShort | src/pfs2tar.c:285-342 | files that round up below 4 GiB and names with at most 124 bytes behind their cut can all be stepped over |
| RoundTripArchive.RestoreMerges | src/pfs2tar.c:686-703 | backup followed by restore merges what the walk has found into whatever the partition holds, with and without overwriting, even when the walk was cut short |
| RoundTripArchive.BackupThenRestore | src/pfs2tar.c:686-703 | backup followed by restore into an empty partition gives the same tree, names, kinds, bytes, modes, times and link targets, if and only if every node below the root is carried; other partitions may hold anything that can be stepped over |
| RoundTripArchive.NewNodes | src/pfs2tar.c:462-533 | a node that was not there is there after a restore exactly if it arrives, with its own kind, permissions, data, target and storable time |
| RoundTripArchive.ExistingNodes | src/pfs2tar.c:454-461 | a node that was there stays as it was, or with overwriting gets the attributes and a file the data of the node that arrives on it |
| RoundTripArchive.RestoringTwiceIsOnce | src/pfs2tar.c:405-537 | a second restore changes nothing, with or without overwriting, whatever was there at first |
| HdlfsFormat.Format | subprojects/hdlfs/main.c:83-153 | succeeds exactly when all slices answer, capacities reach the image and each share is below 0x200000; each failure has its own code |
| HdlfsFormat.SucceedsInNumbers | subprojects/hdlfs/main.c:105-147 | on slices no smaller than 8192 and 4 sectors success is: all slices answer, the floor sums reach the image, no slice takes 2097152 sectors or more |
| HdlfsFormat.ExtentsInNumbers | subprojects/hdlfs/main.c:111-137 | each extent begins where the room before it ends, 8192 or 4 sectors into its slice, and takes what is left |
| HdlfsFormat.FailureIs | subprojects/hdlfs/main.c:83-153 | the code of each failure |
| HdlfsFormat.LayOut | subprojects/hdlfs/main.c:111-137 | the loop gives every slice its share at the running offset and stops with the first slice's error |
| HdlfsFormat.FormattedCovers | subprojects/hdlfs/main.c:119-133 | the extents start at the prefix sums, add up to the image and do not wrap |
| HdlfsFormat.ExtentInsideSlice | subprojects/hdlfs/main.c:113-121 | an extent lies behind the reserved area, and inside its slice exactly when the slice is as large as that area |
| HdlfsFormat.TinySliceIsAccepted | subprojects/hdlfs/main.c:111-137 | a slice of 100 sectors that format accepts and whose extent lies behind it |
| HdlfsFormat.ExtentsApart | subprojects/hdlfs/main.c:113-133 | extents of disjoint slices are disjoint on the disk |
| HdlfsFormat.GameSize | subprojects/hdlfs/main.c:307-309 | the loop sums the extents' sizes in 32 bits |
| HdlfsFormat.SizesAddUp | subprojects/hdlfs/main.c:307-309 | after format the reported size is the image's number of sectors |
| HdlfsImage.ImageRead | subprojects/hdlfs/main.c:206-213 | sectors read from a slice behind its reserved area are the image's sectors at base plus relative position |
| HdlfsImage.ImageWrite | subprojects/hdlfs/main.c:206-213 | sectors written to a slice change exactly those sectors of the image |
| HdlfsDriver.Descriptor.Mount | subprojects/hdlfs/main.c:391-432 | a mounted descriptor stands at the start of the image that the information block describes, and its size is the sum of all slices |
| HdlfsDriver.HdlfsMount | subprojects/hdlfs/main.c:391-432 | a descriptor is set up exactly when every step succeeds; each failure has its own code, a block read in part is reported as success, and after a failed read the unit stays open with what it had before |
| HdlfsDriver.HdlfsOpen | subprojects/hdlfs/main.c:155-166 | any unit with an open partition is handed out as it is |
| HdlfsDriver.ShortReadKeepsTheOldGame | subprojects/hdlfs/main.c:391-432 | a run that ends with the extents of one game on the partition of another |
| HdlfsDriver.Descriptor.Io | subprojects/hdlfs/main.c:173-231 | the transfer loop ends, moves a stretch of the image at the offset, and on a willing device succeeds exactly when the request ends inside the image; offset and slice position stay consistent |
| HdlfsDriver.Descriptor.Step | subprojects/hdlfs/main.c:199-227 | one turn moves on from a used-up slice and transfers the common part, or fails at the image's end or by a refusal |
| HdlfsDriver.Descriptor.Lseek | subprojects/hdlfs/main.c:243-280 | SEEK_SET reaches exactly the sectors of the image; for the other origins the position is proper exactly when the new offset lies in the chosen slice |
| HdlfsDriver.RelativeSeekCanMiss | subprojects/hdlfs/main.c:256-268 | a concrete mount, seek and relative seek by nothing that loses the position |
| HdlfsDriver.FormatThenMount | subprojects/hdlfs/main.c:105-147 | what format writes describes an image that the disk can hold and the driver can mount |
| HdlfsDriver.RunProgram | subprojects/hdlfs/main.c:173-280 | every program of seeks, reads and writes inside the image gets the answers of a flat file and leaves its contents, and the disk outside the image stays as it was |
| PfsdTables.RemappedIsConfined | src/pfsd.c:131-149 | a name passed on is the client's own container plus the unchanged rest, or empty, or under no live container |
| PfsdHistory.RemappedExactly | src/pfsd.c:131-149 | under the first own mount that serves it a name becomes the container and the rest; otherwise nothing under a container in use, and itself if not |
| PfsdDaemon.Daemon.RemapName | src/pfsd.c:131-149 | the in-place moves produce exactly that name for overlapping ranges of any length |
| PfsdDaemon.Daemon.RemapFd | src/pfsd.c:176-186 | a descriptor is passed on exactly to its owner |
| PfsdDaemon.Daemon.CommonClose | src/pfsd.c:165-174 | the shifting loop removes exactly the entry and keeps the others in order |
| PfsdDaemon.Daemon.RpcCommandOpen | src/pfsd.c:324-335 | the library gets the remapped name, the table one entry with the first serving mount, the client one reply |
| PfsdDaemon.Daemon.RpcCommandClose | src/pfsd.c:337-345 | closes and removes a descriptor of its owner, refuses any other, replies once |
| PfsdDaemon.Daemon.RpcCommandMount | src/pfsd.c:370-415 | direct mount, sharing of a mounted device, and the pfs0: to pfs31: fallback, as the step says; one reply |
| PfsdDaemon.Daemon.RpcCommandUmount | src/pfsd.c:417-459 | frees the slot unless a file is open under it; the library keeps its mount; one reply |
| PfsdDaemon.Daemon.RpcCommandGetMountPoint | src/pfsd.c:461-477 | writes the prefix of the client's own mount of the device to the segment, and one reply |
| PfsdDaemon.Daemon.EventHandler | src/pfsd.c:479-613 | the switch and its handlers do to tables, segment and socket what the dispatcher's specification says, with every name remapped in its own buffer |
| PfsdDaemon.Daemon.AddNewClient | src/pfsd.c:243-281 | appends the client and keeps the listening socket behind the last one, unless 31 clients are connected already, when the code writes behind the array |
| PfsdDaemon.Daemon.TooManyClients | src/pfsd.c:243-281 | 32 clients connect one after the other, and the last one overruns the array |
| PfsdDaemon.Daemon.CleanupClient | src/pfsd.c:283-322 | ends, closes every file and frees every mount of the departed client, keeps the others in order, and compacts the connections |
| PfsdRuns.StepKeepsInv | src/pfsd.c:283-459 | every request, connect and disconnect keeps the table invariant |
| PfsdRuns.ReachableStatesKeepInv | src/pfsd.c:283-459 | the invariant holds after every run, and library mounts only grow |
| PfsdRuns.OpenFilesMirrorTheLibrary | src/pfsd.c:151-174 | in every reachable state the table lists each open descriptor of the library once, with a mount index that is none or a live slot of its client |
| PfsdRuns.MountsShareConsistently | src/pfsd.c:370-415 | in every reachable state live mounts share a container exactly when they share a device, the container is mounted on it, and no client has a prefix twice |
| PfsdHistory.FilesAreHistory | src/pfsd.c:151-174 | in every state of every run the open-file table is the history of granted opens not yet closed, each with the slot that served the name as the client wrote it |
| PfsdHistory.UmountIsRefusedIff | src/pfsd.c:417-459 | a umount is refused with -16 exactly while a descriptor is open whose name that mount served; otherwise its slot is freed and nothing else changes |
| PfsdHistory.ServingMountStays | src/pfsd.c:432-443 | while a descriptor is open the mount that served its name keeps its slot |
| PfsdHistory.MountsAreHistory | src/pfsd.c:370-459 | in every state of every run the live mounts are the granted mounts not yet released, on the device up to the first comma of the name that was sent |
| PfsdHistory.SharedIffSameDevice | src/pfsd.c:380-396 | two live mounts share a container exactly when the device names that their clients sent agree up to their first commas |
| PfsdHistory.OpenIsGrantedIff | src/pfsd.c:324-335 | an open is refused with -24 exactly when 32 descriptors are open, and otherwise answered by the library |
| PfsdHistory.CloseIsGrantedIff | src/pfsd.c:337-345 | a close is granted exactly to the client that has the descriptor open; any other gets -9 and changes nothing |
| PfsdHistory.MountNeedsSlotAndPrefix | src/pfsd.c:383-388 | -24 without a free slot, -16 for a prefix that the client has already |
| PfsdHistory.MountOfFreeDevice | src/pfsd.c:389-404 | a free device goes under the client's own name, or else the first free one of pfs0: to pfs31:, and the client is told the library's answer |
| PfsdHistory.MountOfMountedDevice | src/pfsd.c:392-396 | a mounted device is shared under its container as long as some slot is on it |
| PfsdRuns.LeaversOwnNothing | src/pfsd.c:283-322 | after a disconnect nothing in the tables belongs to the departed client, and the remaining clients stay distinct |
| PfsdRuns.UnmountIsNeverReached | src/pfsd.c:445-453 | the search before an unmount always stops at slot 0, so the library is never asked |
| PfsdRuns.LastUmountStrands | src/pfsd.c:417-459 | a umount leaves its device mounted with no slot exactly when no other slot was on it |
| PfsdRuns.DisconnectStrandsIff | src/pfsd.c:303-315 | a disconnect leaves a mounted device with no slot exactly when nobody else had one on it |
| PfsdRuns.OneClientStrands | src/pfsd.c:370-459 | connect, mount, umount is a run of the daemon that ends with the device stranded |
| PfsdRuns.MountedDeviceIsGrantedIff | src/pfsd.c:392-404 | with a free slot and a new prefix, a device that is mounted already is granted exactly when some slot is still on it |
| PfsdRuns.StrandedMountIsRefused | src/pfsd.c:392-404 | a request for such a device is refused and changes nothing |
| PfsdRuns.StrandedForever | src/pfsd.c:370-459 | such a device stays refused in every later state of every run |
| PfsdProtocol.EveryRunIsAtomic | src/pfsd_client.c:82-143 | for every interleaving at most one client is in a call, and completed calls have the replies and bytes of the same calls done one at a time in the order served |
| PfsdProtocol.EveryRunIsATrace | src/pfsd_client.c:82-143 | for every interleaving the requests were handled one after the other, each on the state and the segment that the ones before it have left and with its own input, and each finished call has the reply and bytes of its own request |
| PfsdProtocol.CallsGoOn | src/pfsd_client.c:200-250 | a call in progress always has a next action |
| PfsdProtocol.SecondReplyMisleads | src/pfsd_client.c:82-143 | for any daemon: after a request that was answered twice the client's next call, whatever it is and whatever it copies, returns the left-over reply before it is served |
| PfsdProtocol.AnotherClientIsHarmed | src/pfsd_client.c:82-143 | for any daemon: the ordinary call of a second client can then return the bytes that the first client's call has put in the segment |
| PfsdService.AnsweredOnceIff | src/pfsd.c:479-613 | a request is answered exactly once if and only if it is known and not GETMOUNTPOINT |
| PfsdService.MountPointMisleads | src/pfsd.c:594-612 | whatever a client asks for after GETMOUNTPOINT, and whatever it copies in or out, it is told the number that GETMOUNTPOINT left over |
| PfsdService.RefusedCloseLooksDone | src/pfsd.c:594-612 | a run in which the refused close of a foreign descriptor is told as success |
| PfsdService.AnotherClientReadsForeignByte | src/pfsd.c:594-612 | a run in which a client that only reads its own file gets a byte of another client's file |
| PfsdService.ClientsSeeAtomicCalls | src/pfsd.c:479-613 | interleaved clients of the daemon's own steps see atomic calls, and its tables are those of the calls in order |
| PfsdCalls.DescriptorsAreHistory | src/pfsd.c:176-186 | a client is let at exactly the descriptors that it has opened and not closed, by the replies of the run |
| PfsdCalls.FinishedCallsOnDescriptors | src/pfsd.c:491-509 | over all interleavings a finished lseek, read, write, dread or ioctl has the library's result and bytes if the client had the descriptor open, and otherwise -9 with tables and segment unchanged |
| PfsdCalls.NamesReachTheLibraryRemapped | src/pfsd.c:510-570 | the names of mkdir, rename, chstat and the like reach the library only as they may |
| PfsdCalls.DirectCallsPassThrough | src/pfsd.c:551-590 | format and read-ahead pass the library's result and bytes on |
| PfsdCalls.MountPointIs | src/pfsd.c:461-477 | GETMOUNTPOINT leaves the prefix of the client's first mount of the device in the segment, or an empty string |
| PfsdService.InterleavedRunsKeepTheTables | src/pfsd.c:479-613 | in every state of every interleaving, byte by byte and with any requests, the daemon's tables keep their invariant |
| PfsdService.TablesStayInOrder | src/pfsd.c:479-613 | the same from the daemon's start on |
| PfsdTransfer.Client.Read | src/pfsd_client.c:200-224 | the chunked read makes the requests and tells the count or error of its course; the bytes moved are the file's, byte by byte, and outside the buffer's range nothing changes |
| PfsdTransfer.Client.Write | src/pfsd_client.c:226-250 | the chunked write makes the requests and tells the count or error of its course; the written bytes stand at the position, every other byte of the file stays, and it grows only as far as it must |
| PfsdTransfer.NothingFails | src/pfsd_client.c:200-250 | without failures the count is that of one unbounded transfer, short ones at the end included |
| PfsdTransfer.ErrorIsToldIff | src/pfsd_client.c:207-223 | the error of the first failing request is told as itself exactly when it is not the last request or the first; otherwise the size of the chunks before is added |
| PfsdTransfer.AlwaysToldIff | src/pfsd_client.c:207-250 | for a given size, count or error can be relied on in every run exactly when the request fits the segment |
| PfsdTransfer.ErrorIsMisread | src/pfsd_client.c:200-224 | a run over a one-byte segment in which the second request's error is told one too high |
| ParseLine.ParseLine | src/util.c:4-95 | the state machine returns the tokens of the declared tokenizer and leaves the line with a NUL at each token's end and no other change |
| ParseLine.TokensAreInOrder | src/util.c:4-95 | tokens are ordered, disjoint and inside the line, at most one for two characters read |
| ParseLine.TokenReadsBack | src/util.c:45-47 | after all NULs are written each pointer reads as its own characters, and nothing behind the line's end has changed |
| ParseGrammar.PointersReadAsTexts | src/util.c:4-95 | behind each pointer that is returned stands the text of its token, and a NUL behind it |
| ParseLine.PrintThenParse | src/util.c:16-95 | texts printed in suitable quotes are parsed back, whatever follows the line |
| ParseLine.ParsedIffPrintable | src/util.c:16-95 | some line is parsed into a list of texts exactly when each is free of line ends and of one of the two quotes |
| ParseGrammar.LineIsParsed | src/util.c:16-95 | every line of the grammar, with any blanks and tabs between its tokens, is accepted and its tokens are the texts |
| ParseGrammar.AcceptedIsALine | src/util.c:16-95 | every line that is accepted is one of the grammar up to its first NUL, CR or LF |
| ParseGrammar.OneLine | src/util.c:16-95 | a line with a tab, a blank and adjacent quotes, and its four tokens |
| Mkpart.MakePartition | src/shell.c:396-426 | for every pattern of refusals each request is for the largest size that fits what is left and is still considered, until none is; sizes made plus remainder are the request and sizes never grow; a granted request of 2048 MB is one slice of 2 GB; on a willing disk the remainder is below 8 MB and the number of slices the fewest possible |
| Mkpart.MainPartition | src/shell.c:396-409 | each size that fits is asked for once, from 2 GB downwards, until one is granted: that is the main partition, and all before it were refused |
| Mkpart.FewestIsLeast | src/shell.c:396-426 | no list of sizes from 8 MB to 2 GB with that sum is shorter |
| Mkpart.SplitIsShortest | src/shell.c:396-426 | no other split that leaves less than 8 MB of the request has fewer slices |

## Left out

- Sockets, poll, shared-memory and semaphore set-up, capability queries, signals and the daemon's main loop; a client does not crash in the middle of a call.
- The APA, PFS and iomanX libraries, whose sources are not part of this repository; the contracts used are named above.
- RoundTripArchive.BackupThenRestore: a link's own mode and time are not restored by the code and not compared; directory times rely on the library not touching a directory when a node is made in it.
- RoundTripArchive.BackupThenRestore: archives in which an entry cannot be stepped over, behind which the reader takes file contents for headers.
- RoundTripArchive.BackupThenRestore: the mode and time of the partition root itself, which are archived and never restored (`RootIsSkipped`).
- Walk.Backup.DoWrappedFtw: progress output, failing directory reads and failing opens of files that exist.
- Restore.Reader.RestoreFromTar: messages, failing writes and failing attribute changes.
- RoundTripArchive.BackupDisk: the choice of file names on the command line and the removal of small archives.
- HdlfsFormat.Format: the fields of the information block other than the extents, and a failing count of sub-partitions.
- HdlfsDriver.HdlfsMount: the semaphore, and partitions of more than 64 slices or whose information block does not describe an image.
- HdlfsDriver.Descriptor.Io: calls made after a transfer has run past the image's end, before the next seek; negative sizes; more than 64 slices.
- HdlfsDriver.RunProgram: overlap of the information block with image data does not occur, since it lies in the reserved area.
- PfsdDaemon.Daemon.RemapName: remapped names that do not fit the buffer of the name, whose room the code does not check.
- PfsdDaemon.Daemon.RpcCommandOpen: remapped names that do not fit its buffer of 1200 bytes.
- PfsdDaemon.Daemon.EventHandler: packets whose names do not fit their buffers before and after they are remapped; failing reads of a packet, and what the library does inside a call; its answers and the bytes it leaves in the segment come with the request.
- PfsdTransfer.Client.Read: the bytes behind the delivered ones that the copy out of the segment also overwrites; null buffers; sizes of 2 GiB and more.
- The per-command argument marshalling of the client library, and the HIOCTRANSFER size check before its lock.
- Mkpart.MakePartition: parsing of the size argument, the file system type, and creation of the file system.
- `src/hl.c`, `src/host_adapter.c`, `src/iomanx_adapter.c`, `src/ps2kinst.c`, `src/pfslib_compat.c` and the fake SDK: thin wrappers over system calls, listing and copy loops, and code that is compiled out.
- Shell prompts, help, listing, changing directories and command gating.
