/** The daemon's code: the loops over its global arrays, each proved against the step it performs. */
module PfsdDaemon {
  import opened ByteStrings
  import opened PfsdTables
  import opened PfsdRuns
  import opened PfsdService

  /** A reply written to a client's socket. */
  datatype Reply = Reply(pid: int, code: int)

  class Daemon {
    const files: array<OpenFile>     // g_openfile_items
    var fileCount: nat               // g_openfile_count
    const mounts: array<Mount>       // g_mountlist_items
    const pollfds: array<int>        // g_connection_pollfds
    var clientCount: nat             // g_current_client_count
    const socketFd: int              // the listening socket
    var openFds: set<int>            // the library's open descriptors
    var mounted: map<Bytes, Bytes>   // the library's mounts
    var replies: seq<Reply>          // what has been written to the clients
    var asked: Bytes                 // the name in the library's last open

    ghost predicate Valid()
      reads this, pollfds
    {
      && files.Length == SLOTS && mounts.Length == SLOTS && pollfds.Length == SLOTS
      && fileCount <= SLOTS && clientCount < SLOTS && pollfds[clientCount] == socketFd
    }

    ghost function T(): Tables
      reads this, files, mounts, pollfds
      requires Valid()
    {
      Tables(files[..fileCount], mounts[..], openFds, mounted)
    }

    ghost function Clients(): seq<int>
      reads this, pollfds
      requires Valid()
    {
      pollfds[..clientCount]
    }

    constructor (socketFd: int)
      ensures Valid() && this.socketFd == socketFd && replies == [] && fresh(pollfds)
      ensures System(T(), Clients()) == Initial()
    {
      files := new OpenFile[SLOTS](_ => OpenFile(0, 0, 0));
      mounts := new Mount[SLOTS](_ => FREE);
      pollfds := new int[SLOTS](_ => 0);
      fileCount, clientCount, this.socketFd := 0, 0, socketFd;
      openFds, mounted, replies, asked := {}, map[], [], [];
      new;
      pollfds[0] := socketFd;
      assert mounts[..] == seq(SLOTS, _ => FREE);
    }

    // ----- searching -----

    /** The search loops over the mount list. */
    method Search(q: Query) returns (i: nat)
      requires Valid()
      ensures i == First(mounts[..], q)
    {
      i := 0;
      while i < mounts.Length && !Matches(q, mounts[i])
        invariant 0 <= i <= mounts.Length
        invariant forall k :: 0 <= k < i ==> !Matches(q, mounts[k])
      {
        i := i + 1;
      }
      FirstIs(mounts[..], q, i);
    }

    /** rpc_remap_fd: the descriptor if the client owns it, otherwise -1. */
    method RemapFd(fd: int, pid: int) returns (r: int)
      requires Valid()
      ensures r == if Owns(files[..fileCount], pid, fd) then fd else -1
    {
      var i := 0;
      while i < fileCount
        invariant 0 <= i <= fileCount
        invariant forall k :: 0 <= k < i ==> files[k].fd != fd || files[k].pid != pid
      {
        if files[i].fd == fd && files[i].pid == pid {
          assert files[..fileCount][i].fd == fd;
          return fd;
        }
        i := i + 1;
      }
      return -1;
    }

    /** rpc_remap_name, in place. */
    method RemapName(name: array<byte>, pid: int)
      requires Valid() && NUL in name[..] && RemapFits(mounts[..], pid, CStr(name[..]), name.Length)
      modifies name
      ensures NUL in name[..] && CStr(name[..]) == Remapped(mounts[..], pid, old(CStr(name[..])))
    {
      hide CStr, Splice;
      var s := CStr(name[..]);
      var i := Search(Serving(pid, s));
      if i < mounts.Length {
        assert Matches(Serving(pid, s), mounts[i]);
        ReplacePrefix(name, mounts[i]);
      } else {
        BlankIfGuarded(name);
      }
    }

    /** The remapped name and its NUL have room; a container is a C string. */
    static predicate RemapFits(ms: seq<Mount>, pid: int, name: Bytes, room: nat)
    {
      |name| < room && |Remapped(ms, pid, name)| < room
      && var i := First(ms, Serving(pid, name)); i < |ms| ==> NUL !in ms[i].container
    }

    /** The rest of the name is moved to where the container ends, with its NUL, then the container is copied in
        front of it; the two ranges may overlap in either direction. */
    method ReplacePrefix(name: array<byte>, m: Mount)
      requires NUL in name[..] && m.prefix <= CStr(name[..])
      requires NUL !in m.container && |m.container| + |CStr(name[..])| - |m.prefix| < name.Length
      modifies name
      ensures NUL in name[..]
      ensures CStr(name[..]) == m.container + old(CStr(name[..]))[|m.prefix|..]
    {
      hide Splice;
      var s := CStr(name[..]);
      var to, from := |m.container|, |m.prefix|;
      ghost var before := name[..];
      PrefixReplaced(before, s, m.container, from);
      Move(name, to, from, |s| - (from - 1));
      Put(name, 0, m.container);
    }

    static lemma PrefixReplaced(b: Bytes, s: Bytes, container: Bytes, from: nat)
      requires NUL in b && s == CStr(b) && from <= |s|
      requires NUL !in container && |container| + |s| - from < |b|
      ensures var to, n := |container|, |s| - (from - 1);
        && to + n <= |b| && from + n <= |b|
        && var r := Splice(Splice(b, to, b[from..from + n]), 0, container);
           NUL in r && CStr(r) == container + s[from..]
    {
      hide CStr, Splice;
      NulBehind(b, s);
      var to, n := |container|, |s| - (from - 1);
      var rest, front := b[from..from + n], container + s[from..];
      assert rest == s[from..] + [NUL];
      SpliceFront(b, rest, container);
      var r := Splice(Splice(b, to, rest), 0, container);
      assert r == front + [NUL] + b[to + n..];
      assert r[|front|] == NUL && r[..|front|] == front;
      CStrIsUnique(r, front);
    }

    static lemma SpliceFront(b: Bytes, rest: Bytes, container: Bytes)
      requires |container| + |rest| <= |b|
      ensures Splice(Splice(b, |container|, rest), 0, container) == container + rest + b[|container| + |rest|..]
    {
    }

    static lemma NulBehind(b: Bytes, s: Bytes)
      requires NUL in b && s == CStr(b)
      ensures |s| < |b| && b[|s|] == NUL && b[..|s|] == s
    {
      assert |s| == |b| ==> s == b;
    }

    /** The second loop: a name under any live container is cut to nothing. */
    method BlankIfGuarded(name: array<byte>)
      requires Valid() && NUL in name[..]
      modifies name
      ensures NUL in name[..]
      ensures CStr(name[..]) == if Guarded(mounts[..], old(CStr(name[..]))) then [] else old(CStr(name[..]))
    {
      ghost var s := CStr(name[..]);
      var k := 0;
      while k < mounts.Length
        invariant 0 <= k <= mounts.Length && NUL in name[..]
        invariant CStr(name[..]) == if GuardedUpTo(mounts[..], s, k) then [] else s
      {
        if mounts[k].pid != 0 && mounts[k].container <= CStr(name[..]) {
          name[0] := NUL;
          assert CStr(name[..]) == [];
        }
        GuardedNext(mounts[..], s, k);
        k := k + 1;
      }
    }

    static predicate GuardedUpTo(ms: seq<Mount>, name: Bytes, n: nat)
      requires n <= |ms|
    {
      exists k :: 0 <= k < n && ms[k].pid != 0 && ms[k].container <= name
    }

    static lemma GuardedNext(ms: seq<Mount>, name: Bytes, n: nat)
      requires n < |ms|
      ensures GuardedUpTo(ms, name, n + 1) <==>
        GuardedUpTo(ms, name, n) || (ms[n].pid != 0 && ms[n].container <= name)
      ensures n + 1 == |ms| ==> (GuardedUpTo(ms, name, n + 1) <==> Guarded(ms, name))
    {
      if ms[n].pid != 0 && ms[n].container <= name {
        assert GuardedUpTo(ms, name, n + 1);
      }
    }

    /** memmove */
    static method Move(a: array<byte>, to: nat, from: nat, count: nat)
      requires to + count <= a.Length && from + count <= a.Length
      modifies a
      ensures a[..] == Splice(old(a[..]), to, old(a[from..from + count]))
    {
      forall k | 0 <= k < count {
        a[to + k] := a[from + k];
      }
    }

    // ----- the open-file table -----

    method WriteReply(pid: int, code: int)
      modifies this`replies
      ensures replies == old(replies) + [Reply(pid, code)]
    {
      replies := replies + [Reply(pid, code)];
    }

    /** rpc_common_open */
    method CommonOpen(fd: int, pid: int, name: Bytes)
      requires Valid() && fileCount < SLOTS
      modifies this`fileCount, files
      ensures Valid()
      ensures files[..fileCount] == old(files[..fileCount]) + [OpenFile(fd, pid, First(mounts[..], Serving(pid, name)))]
    {
      var i := Search(Serving(pid, name));
      files[fileCount] := OpenFile(fd, pid, i);
      fileCount := fileCount + 1;
    }

    /** rpc_common_close: finds the entry and shifts the later ones down. */
    method CommonClose(fd: int, pid: int)
      requires Valid() && Owns(files[..fileCount], pid, fd)
      modifies this`fileCount, files
      ensures Valid()
      ensures files[..fileCount] == Without(old(files[..fileCount]), Entry(old(files[..fileCount]), pid, fd))
    {
      ghost var before := files[..fileCount];
      var i := 0;
      while i < fileCount && (files[i].fd != fd || files[i].pid != pid)
        invariant 0 <= i <= fileCount
        invariant forall k :: 0 <= k < i ==> before[k].fd != fd || before[k].pid != pid
      {
        i := i + 1;
      }
      EntryIs(before, pid, fd, i);
      ghost var at := i;
      while i < fileCount - 1
        invariant fileCount == old(fileCount) == |before| && at <= i <= fileCount - 1
        invariant forall k :: 0 <= k < i ==> files[k] == Without(before, at)[k]
        invariant forall k :: i <= k < fileCount ==> files[k] == before[k]
      {
        WithoutAt(before, at, i);
        files[i] := files[i + 1];
        i := i + 1;
      }
      fileCount := fileCount - 1;
      assert files[..fileCount] == Without(before, at);
    }

    static lemma EntryIs(s: seq<OpenFile>, pid: int, fd: int, i: nat)
      requires i < |s| && s[i].fd == fd && s[i].pid == pid
      requires forall k :: 0 <= k < i ==> s[k].fd != fd || s[k].pid != pid
      ensures Entry(s, pid, fd) == i
    {
    }

    /** rpc_command_open and rpc_command_dopen; answer is what the library returns if it is asked. */
    method RpcCommandOpen(pid: int, name: Bytes, answer: int)
      requires Valid() && NUL !in name && RemapFits(mounts[..], pid, name, 1200)
      modifies this`fileCount, this`openFds, this`replies, this`asked, files
      ensures Valid()
      ensures T() == OpenStep(old(T()), pid, name, answer).tables
      ensures replies == old(replies) + [Reply(pid, OpenStep(old(T()), pid, name, answer).reply)]
      ensures old(fileCount) < SLOTS ==> asked == Remapped(mounts[..], pid, name)
    {
      hide CStr, Remapped, First;
      var ret := -EMFILE;
      if fileCount < SLOTS {
        var buf := CopyOf(name, 1200);
        RemapName(buf, pid);
        asked := CStr(buf[..]);
        ret := answer;
        if ret >= 0 {
          openFds := openFds + {ret};
        }
      }
      WriteReply(pid, ret);
      if ret >= 0 {
        CommonOpen(ret, pid, name);
      }
    }

    /** strcpy into a name buffer. */
    static method CopyOf(name: Bytes, room: nat) returns (buf: array<byte>)
      requires NUL !in name && |name| < room
      ensures fresh(buf) && buf.Length == room && NUL in buf[..] && CStr(buf[..]) == name
    {
      buf := new byte[room](_ => NUL);
      Put(buf, 0, name + [NUL]);
      assert buf[..|name| + 1] == name + [NUL];
      assert buf[|name|] == NUL;
      CStrIsUnique(buf[..], name);
    }

    /** rpc_command_close and rpc_command_dclose */
    method RpcCommandClose(pid: int, fd: int)
      requires Valid() && -1 !in openFds
      modifies this`fileCount, this`openFds, this`replies, files
      ensures Valid() && T() == CloseStep(old(T()), pid, fd).tables
      ensures replies == old(replies) + [Reply(pid, CloseStep(old(T()), pid, fd).reply)]
    {
      var own := RemapFd(fd, pid);
      var ret := -EBADF;
      if own in openFds {
        ret := 0;
        openFds := openFds - {own};
      }
      if ret == 0 {
        CommonClose(fd, pid);
      }
      WriteReply(pid, ret);
    }

    // ----- mounts -----

    /** scepfsMount: busy when the container or the device is taken, otherwise the library's own answer. */
    method LibraryMounts(container: Bytes, device: Bytes, answer: int) returns (code: int)
      modifies this`mounted
      ensures var a := LibraryMount(old(mounted), container, device, answer); code == a.code && mounted == a.mounted
    {
      if container in mounted || device in mounted.Values {
        return -EBUSY;
      }
      if answer == 0 {
        mounted := mounted[container := device];
      }
      return answer;
    }

    /** rpc_command_mount; answers(n) is what the library says to the n-th request that is not busy. */
    method RpcCommandMount(pid: int, fsname: Bytes, devname: Bytes, answers: nat -> int)
      requires Valid()
      modifies this`mounted, this`replies, mounts
      ensures Valid() && T() == MountStep(old(T()), pid, fsname, devname, answers).tables
      ensures replies == old(replies) + [Reply(pid, MountStep(old(T()), pid, fsname, devname, answers).reply)]
    {
      var container, device := fsname, UntilComma(devname);
      var ret := -EMFILE;
      var slot := Search(Unused);
      if slot < mounts.Length {
        ret := -EBUSY;
        var i := Search(Exactly(pid, fsname));
        if i >= mounts.Length {
          ret, container := MountOrShare(fsname, device, answers);
        }
      }
      if ret == 0 {
        mounts[slot] := Mount(pid, fsname, container, device);
      }
      WriteReply(pid, ret);
    }

    /** The library's part: the request as it is, a container that is already on the device, or pfs0: to pfs31:. */
    method MountOrShare(fsname: Bytes, device: Bytes, answers: nat -> int) returns (ret: int, container: Bytes)
      requires Valid()
      modifies this`mounted
      ensures Valid()
      ensures var a := MountAt(old(T()), fsname, device, answers);
        ret == a.code && mounted == a.mounted && (ret == 0 ==> container == a.container)
    {
      container := fsname;
      ret := LibraryMounts(container, device, answers(0));
      if ret == -EBUSY {
        var i := Search(OnDevice(device));
        if i < mounts.Length {
          return 0, mounts[i].container;
        }
        hide TryPfsNames, LibraryMount, PfsName;
        i := 0;
        ghost var all := TryPfsNames(Answer(ret, container, mounted), device, 0, answers);
        while i < SLOTS && ret == -EBUSY
          invariant 0 <= i <= SLOTS
          invariant TryPfsNames(Answer(ret, container, mounted), device, i, answers) == all
        {
          TryOneName(Answer(ret, container, mounted), device, i, answers);
          container := PfsName(i);
          ret := LibraryMounts(container, device, answers(i + 1));
          i := i + 1;
        }
        TryNoMore(Answer(ret, container, mounted), device, i, answers);
      }
    }

    static lemma TryOneName(a: Answer, device: Bytes, i: nat, answers: nat -> int)
      requires i < SLOTS && a.code == -EBUSY
      ensures TryPfsNames(a, device, i, answers)
              == TryPfsNames(LibraryMount(a.mounted, PfsName(i), device, answers(i + 1)), device, i + 1, answers)
    {
    }

    static lemma TryNoMore(a: Answer, device: Bytes, i: nat, answers: nat -> int)
      requires i <= SLOTS && (i == SLOTS || a.code != -EBUSY)
      ensures TryPfsNames(a, device, i, answers) == a
    {
    }

    /** The search before the unmount, as it is written: it goes on only while i == k. */
    method FindSharer(i: nat) returns (k: nat)
      requires Valid() && i < mounts.Length
      ensures k == StopIndex(mounts[..], i, 0)
    {
      k := 0;
      while k < mounts.Length && i == k && (mounts[k].pid == 0 || mounts[i].container != mounts[k].container)
        invariant 0 <= k <= mounts.Length && StopIndex(mounts[..], i, k) == StopIndex(mounts[..], i, 0)
      {
        k := k + 1;
      }
    }

    /** rpc_command_umount */
    method RpcCommandUmount(pid: int, fsname: Bytes)
      requires Valid() && pid != 0
      modifies this`mounted, this`replies, mounts
      ensures Valid() && T() == UmountStep(old(T()), pid, fsname).tables
      ensures replies == old(replies) + [Reply(pid, UmountStep(old(T()), pid, fsname).reply)]
    {
      var i := Search(Exactly(pid, fsname));
      if i == mounts.Length {
        WriteReply(pid, -ENODEV);
        return;
      }
      var j := 0;
      while j < fileCount
        invariant 0 <= j <= fileCount
        invariant forall k :: 0 <= k < j ==> files[k].mountIndex != i
      {
        if files[j].mountIndex == i {
          assert files[..fileCount][j].mountIndex == i;
          WriteReply(pid, -EBUSY);
          return;
        }
        j := j + 1;
      }
      var k := FindSharer(i);
      var ret := 0;
      if k >= mounts.Length {
        mounted := mounted - {mounts[i].container};
      }
      WriteReply(pid, ret);
      if ret == 0 {
        mounts[i] := FREE;
      }
      assert Matches(Exactly(pid, fsname), old(mounts[..])[i]);
      UnmountIsNeverReached(old(mounts[..]), i);
    }

    // ----- requests -----

    /** rpc_command_getmountpoint, up to its own reply. */
    method RpcCommandGetMountPoint(pid: int, path: Bytes, shm: array<byte>)
      requires Valid()
      modifies this`replies, shm
      ensures Valid() && T() == old(T())
      ensures var o := MountPointOf(T(), old(shm[..]), pid, path, 0);
        shm[..] == o.shm && replies == old(replies) + [Reply(pid, o.replies[0])]
    {
      var i := Search(OwnDevice(pid, UntilComma(path)));
      WriteSegment(shm, (if i == mounts.Length then [] else mounts[i].prefix) + [NUL]);
      WriteReply(pid, if i == mounts.Length then -ENODEV else 0);
    }

    /** What a library call leaves at the start of the segment. */
    static method WriteSegment(shm: array<byte>, bytes: Bytes)
      modifies shm
      ensures shm[..] == WrittenTo(old(shm[..]), bytes)
    {
      Put(shm, 0, if |bytes| <= shm.Length then bytes else bytes[..shm.Length]);
    }

    /** The names of a packet, remapped in their own buffers. */
    method RemapAll(names: seq<Bytes>, pid: int) returns (mapped: seq<Bytes>)
      requires Valid() && NamesFit(mounts[..], pid, names)
      ensures mapped == AllRemapped(mounts[..], pid, names)
    {
      hide CStr, Remapped;
      mapped := [];
      for i := 0 to |names|
        invariant mapped == AllRemapped(mounts[..], pid, names)[..i]
      {
        var buf := CopyOf(names[i], 1024);
        RemapName(buf, pid);
        mapped := mapped + [CStr(buf[..])];
      }
    }

    static predicate NamesFit(ms: seq<Mount>, pid: int, names: seq<Bytes>)
    {
      forall i :: 0 <= i < |names| ==> NUL !in names[i] && RemapFits(ms, pid, names[i], 1024)
    }

    /** A packet from a client: its names fit their buffers, before and after they are remapped. */
    static predicate PacketFits(ms: seq<Mount>, pid: int, r: Request)
    {
      match r
      case Tabled(Open(name, _)) => NUL !in name && RemapFits(ms, pid, name, 1200)
      case OnNames(names, _, _) => NamesFit(ms, pid, names)
      case _ => true
    }

    /** event_handler_func, behind the read of the packet. */
    method EventHandler(pid: int, r: Request, shm: array<byte>)
      requires Valid() && TablesInv(T()) && pid != 0 && PacketFits(mounts[..], pid, r)
      modifies this`fileCount, this`openFds, this`mounted, this`replies, this`asked, files, mounts, shm
      ensures Valid()
      ensures var o := Handle(old(T()), old(shm[..]), pid, r);
        && T() == o.server && shm[..] == o.shm
        && replies == old(replies) + seq(|o.replies|, i requires 0 <= i < |o.replies| => Reply(pid, o.replies[i]))
    {
      hide AskStep, WrittenTo, AllRemapped, Owns, Remapped, TablesInv;
      OwnedIsOpen(T(), pid);
      match r {
        case Tabled(ask) => HandleAsk(pid, ask);
        case OnDescriptor(fd, result, bytes) =>
          var own := RemapFd(fd, pid);
          var ret := -EBADF;
          if own in openFds {
            ret := result;
            WriteSegment(shm, bytes);
          }
          WriteReply(pid, ret);
        case OnNames(names, answer, bytes) =>
          var mapped := RemapAll(names, pid);
          WriteSegment(shm, bytes);
          WriteReply(pid, answer(mapped));
        case Direct(result, bytes) =>
          WriteSegment(shm, bytes);
          WriteReply(pid, result);
        case GetMountPoint(path, leftOver) =>
          RpcCommandGetMountPoint(pid, path, shm);
          WriteReply(pid, leftOver);
        case Unknown =>
      }
    }

    static lemma OwnedIsOpen(t: Tables, pid: int)
      requires TablesInv(t)
      ensures -1 !in t.openFds && forall fd :: Owns(t.files, pid, fd) ==> fd in t.openFds
    {
    }

    /** The requests with a handler of their own. */
    method HandleAsk(pid: int, ask: Ask)
      requires Valid() && pid != 0 && -1 !in openFds && PacketFits(mounts[..], pid, Tabled(ask))
      modifies this`fileCount, this`openFds, this`mounted, this`replies, this`asked, files, mounts
      ensures Valid() && T() == AskStep(old(T()), pid, ask).tables
      ensures replies == old(replies) + [Reply(pid, AskStep(old(T()), pid, ask).reply)]
    {
      hide OpenStep, CloseStep, MountStep, UmountStep;
      match ask {
        case Open(name, answer) => RpcCommandOpen(pid, name, answer(openFds));
        case Close(fd) => RpcCommandClose(pid, fd);
        case MountAs(prefix, devname, answers) => RpcCommandMount(pid, prefix, devname, answers);
        case Umount(prefix) => RpcCommandUmount(pid, prefix);
      }
    }

    // ----- clients -----

    /** add_new_client for an accepted socket; capable tells whether the peer may use raw devices. The listening
        socket moves up by one. The code's own check lets in one client too many: with 31 clients connected the
        listening socket would go behind the end of the array. overrun tells of that, and happens in no other state. */
    method AddNewClient(s: int, capable: bool) returns (overrun: bool)
      requires Valid()
      modifies this`clientCount, pollfds
      ensures overrun <==> capable && old(clientCount) == MAX_CLIENTS
      ensures !overrun ==> Valid() && Clients() == old(Clients()) + if capable then [s] else []
      ensures overrun ==> clientCount == pollfds.Length && pollfds[..] == old(Clients()) + [s]
    {
      overrun := false;
      if clientCount >= SLOTS {
        return;
      }
      if !capable {
        return;
      }
      pollfds[clientCount] := s;
      clientCount := clientCount + 1;
      if clientCount == pollfds.Length {
        return true;
      }
      pollfds[clientCount] := socketFd;
    }

    /** 32 clients connect to a daemon that has just started: the last one overruns the array. */
    static method TooManyClients(socketFd: int) returns (d: Daemon, overrun: bool)
      requires socketFd > 0
      ensures overrun && d.clientCount == 32
    {
      d := new Daemon(socketFd);
      for i := 0 to 31
        invariant fresh(d) && fresh(d.pollfds) && d.Valid() && d.clientCount == i && |d.Clients()| == i
      {
        overrun := d.AddNewClient(socketFd + 1 + i, true);
      }
      overrun := d.AddNewClient(socketFd + 32, true);
    }

    /** The first loop of cleanup_client: closing an entry moves the next one to its place, so the index is taken back. */
    method CloseFilesOf(pid: int)
      requires Valid() && TablesInv(T()) && pid != 0
      modifies this`fileCount, this`openFds, this`replies, files
      ensures Valid() && TablesInv(T())
      ensures T() == WithoutFilesOf(old(T()), pid)
    {
      hide TablesInv, WithoutFilesOf, CloseStep;
      var i: int := 0;
      while i < fileCount
        invariant Valid() && TablesInv(T()) && 0 <= i <= fileCount
        invariant forall k :: 0 <= k < i ==> T().files[k].pid != pid
        invariant WithoutFilesOf(T(), pid) == WithoutFilesOf(old(T()), pid)
        decreases fileCount - i
      {
        if files[i].pid == pid {
          CloseAt(T(), i);
          CloseKeeps(T(), pid, files[i].fd);
          RpcCommandClose(pid, files[i].fd);
          i := i - 1;
        }
        i := i + 1;
      }
      NothingLeft(T(), pid);
    }

    /** Closing the i-th entry of a client takes exactly that entry out. */
    static lemma CloseAt(t: Tables, i: nat)
      requires TablesInv(t) && i < |t.files|
      ensures -1 !in t.openFds
      ensures var pid := t.files[i].pid;
        var t' := CloseStep(t, pid, t.files[i].fd).tables;
        && |t'.files| == |t.files| - 1 && t'.files[..i] == t.files[..i]
        && WithoutFilesOf(t', pid) == WithoutFilesOf(t, pid)
    {
      var f := t.files[i];
      EntryIs(t.files, f.pid, f.fd, i);
      assert f.fd in t.openFds;
      OthersWithout(t.files, i);
      FdsWithout(t.files, i);
      hide TablesInv, Others, FdsOf, Entry;
      var t' := CloseStep(t, f.pid, f.fd).tables;
      assert t'.files == Without(t.files, i) && t'.openFds == t.openFds - {f.fd};
      assert t'.openFds - FdsOf(t'.files, f.pid) == t.openFds - FdsOf(t.files, f.pid);
    }

    static lemma FdsWithout(files: seq<OpenFile>, i: nat)
      requires i < |files|
      ensures FdsOf(files, files[i].pid) == FdsOf(Without(files, i), files[i].pid) + {files[i].fd}
    {
      var pid, rest := files[i].pid, Without(files, i);
      forall k | 0 <= k < |rest| ensures rest[k] == files[if k < i then k else k + 1] {
        WithoutAt(files, i, k);
      }
      forall fd ensures fd in FdsOf(files, pid) <==> fd == files[i].fd || fd in FdsOf(rest, pid) {
        if k :| 0 <= k < |files| && files[k].pid == pid && files[k].fd == fd && k != i {
          assert rest[if k < i then k else k - 1].fd == fd;
        }
      }
    }

    static lemma {:induction false} OthersWithout(files: seq<OpenFile>, i: nat)
      requires i < |files|
      ensures Others(Without(files, i), files[i].pid) == Others(files, files[i].pid)
      decreases i
    {
      var rest, without := files[1..], Without(files, i);
      if i == 0 {
        assert without == rest;
      } else {
        assert without[0] == files[0] && without[1..] == Without(rest, i - 1);
        OthersWithout(rest, i - 1);
      }
    }

    static lemma NothingLeft(t: Tables, pid: int)
      requires forall k :: 0 <= k < |t.files| ==> t.files[k].pid != pid
      ensures WithoutFilesOf(t, pid) == t
    {
      NoneOf(t.files, pid);
    }

    static lemma {:induction false} NoneOf(files: seq<OpenFile>, pid: int)
      requires forall k :: 0 <= k < |files| ==> files[k].pid != pid
      ensures Others(files, pid) == files && FdsOf(files, pid) == {}
      decreases |files|
    {
      if files != [] {
        NoneOf(files[1..], pid);
      }
    }

    /** The second loop of cleanup_client. With the client's files closed, no umount is refused. */
    method UnmountAllOf(pid: int)
      requires Valid() && TablesInv(T()) && pid != 0
      requires forall k :: 0 <= k < fileCount ==> files[k].pid != pid
      modifies this`mounted, this`replies, mounts
      ensures Valid() && TablesInv(T())
      ensures T() == old(T()).(mounts := MountsOfOthers(old(mounts[..]), pid))
    {
      hide TablesInv;
      var i := 0;
      while i < mounts.Length
        invariant Valid() && TablesInv(T()) && 0 <= i <= mounts.Length
        invariant T() == old(T()).(mounts := mounts[..])
        invariant forall k :: 0 <= k < mounts.Length ==>
          mounts[k] == if k < i && old(mounts[k]).pid == pid then FREE else old(mounts[k])
      {
        if mounts[i].pid == pid {
          UmountAt(T(), i);
          UmountKeeps(T(), pid, mounts[i].prefix);
          RpcCommandUmount(pid, mounts[i].prefix);
        }
        i := i + 1;
      }
      assert mounts[..] == MountsOfOthers(old(mounts[..]), pid);
    }

    static lemma UmountAt(t: Tables, i: nat)
      requires TablesInv(t) && i < |t.mounts| && t.mounts[i].pid != 0
      requires forall k :: 0 <= k < |t.files| ==> t.files[k].pid != t.mounts[i].pid
      ensures UmountStep(t, t.mounts[i].pid, t.mounts[i].prefix).tables == t.(mounts := t.mounts[i := FREE])
    {
      FirstIs(t.mounts, Exactly(t.mounts[i].pid, t.mounts[i].prefix), i);
    }

    /** cleanup_client: closes the client's files, unmounts its mounts, and takes it out of the poll array. */
    method CleanupClient(id: nat)
      requires Valid() && id < clientCount
      requires Inv(System(T(), Clients()))
      modifies this`fileCount, this`openFds, this`mounted, this`replies, this`clientCount, files, mounts, pollfds
      ensures Valid()
      ensures System(T(), Clients()) == Step(old(System(T(), Clients())), Disconnect(id))
    {
      var pid := pollfds[id];
      assert pid == Clients()[id];
      CloseFilesOf(pid);
      UnmountAllOf(pid);
      RemoveConnection(id);
    }

    /** The last loop of cleanup_client: the later connections and the listening socket move down by one. */
    method RemoveConnection(id: nat)
      requires Valid() && id < clientCount
      modifies this`clientCount, pollfds
      ensures Valid() && Clients() == Without(old(Clients()), id)
    {
      ghost var all := pollfds[..clientCount + 1];
      var i := id;
      while i < clientCount
        invariant id <= i <= clientCount == |all| - 1 && clientCount == old(clientCount)
        invariant forall k :: 0 <= k < i ==> pollfds[k] == Without(all, id)[k]
        invariant forall k :: i <= k <= clientCount ==> pollfds[k] == all[k]
      {
        WithoutAt(all, id, i);
        pollfds[i] := pollfds[i + 1];
        i := i + 1;
      }
      clientCount := clientCount - 1;
      assert all == old(Clients()) + [socketFd];
      assert Without(all, id) == Without(old(Clients()), id) + [socketFd];
      assert pollfds[..clientCount + 1] == Without(all, id);
      assert pollfds[clientCount] == socketFd && Clients() == pollfds[..clientCount + 1][..clientCount];
    }
  }
}
