/** What holds of the daemon's tables in every state that clients can bring about. */
module PfsdRuns {
  import opened ByteStrings
  import opened PfsdTables

  /** The tables and the connected clients, in the order of the poll array. A client is its socket. */
  datatype System = System(tables: Tables, clients: seq<int>)

  const MAX_CLIENTS := 31

  ghost predicate DistinctFds(files: seq<OpenFile>)
  {
    forall i, j :: 0 <= i < j < |files| ==> files[i].fd != files[j].fd
  }

  ghost predicate FilesAreOpen(t: Tables)
  {
    forall fd :: fd in t.openFds <==> exists i :: 0 <= i < |t.files| && t.files[i].fd == fd
  }

  /** An entry's mount index is SLOTS or a live slot of the same client. */
  ghost predicate IndicesLive(t: Tables)
  {
    forall i :: 0 <= i < |t.files| ==>
      var f := t.files[i];
      f.mountIndex == SLOTS || (f.mountIndex < SLOTS && f.mountIndex < |t.mounts| && t.mounts[f.mountIndex].pid == f.pid)
  }

  /** Every live slot's container is mounted on that slot's device. */
  ghost predicate MountsBacked(t: Tables)
  {
    forall i :: 0 <= i < |t.mounts| && t.mounts[i].pid != 0 ==>
      t.mounts[i].container in t.mounted && t.mounted[t.mounts[i].container] == t.mounts[i].device
  }

  ghost predicate Injective(m: map<Bytes, Bytes>)
  {
    forall a, b :: a in m && b in m && m[a] == m[b] ==> a == b
  }

  /** No client has two live slots for one prefix. */
  ghost predicate PrefixesUnique(ms: seq<Mount>)
  {
    forall i, j :: 0 <= i < j < |ms| && ms[i].pid != 0 && ms[i].pid == ms[j].pid ==> ms[i].prefix != ms[j].prefix
  }

  ghost predicate TablesInv(t: Tables)
  {
    && |t.mounts| == SLOTS && |t.files| <= SLOTS
    && (forall i :: 0 <= i < |t.files| ==> t.files[i].fd >= 0 && t.files[i].pid != 0)
    && DistinctFds(t.files) && FilesAreOpen(t) && IndicesLive(t)
    && MountsBacked(t) && Injective(t.mounted) && PrefixesUnique(t.mounts)
  }

  /** Everything in the tables belongs to a connected client. */
  ghost predicate OwnersConnected(s: System)
  {
    && (forall i :: 0 <= i < |s.tables.files| ==> s.tables.files[i].pid in s.clients)
    && (forall i :: 0 <= i < |s.tables.mounts| && s.tables.mounts[i].pid != 0 ==> s.tables.mounts[i].pid in s.clients)
  }

  ghost predicate Distinct(s: seq<int>) { forall i, j :: 0 <= i < j < |s| ==> s[i] != s[j] }

  ghost predicate Inv(s: System)
  {
    && TablesInv(s.tables) && OwnersConnected(s)
    && |s.clients| <= MAX_CLIENTS && Distinct(s.clients) && 0 !in s.clients
  }

  function Initial(): System
  {
    System(Tables([], seq(SLOTS, _ => FREE), {}, map[]), [])
  }

  // ----- steps -----

  datatype Event =
    | Asked(pid: int, ask: Ask)
    | Connect(socket: int)
    | Disconnect(id: nat)

  /** What the outside world may do: requests come from connected clients, the library keeps to its contract, a
      new socket is a new number. */
  ghost predicate Enabled(s: System, e: Event)
  {
    match e
    case Asked(pid, ask) => pid in s.clients && FromLibrary(ask)
    case Connect(socket) => socket > 0 && socket !in s.clients && |s.clients| < MAX_CLIENTS
    case Disconnect(id) => id < |s.clients|
  }

  function Step(s: System, e: Event): System
    requires e.Disconnect? ==> e.id < |s.clients|
  {
    match e
    case Asked(pid, ask) => s.(tables := AskStep(s.tables, pid, ask).tables)
    case Connect(socket) => s.(clients := s.clients + [socket])
    case Disconnect(id) =>
      System(CleanupStep(s.tables, s.clients[id]), Without(s.clients, id))
  }

  // ----- every step keeps the invariant -----

  lemma OpenKeeps(t: Tables, pid: int, name: Bytes, answer: int)
    requires TablesInv(t) && pid != 0 && answer !in t.openFds
    ensures TablesInv(OpenStep(t, pid, name, answer).tables)
  {
    var i := First(t.mounts, Serving(pid, name));
    var t' := OpenStep(t, pid, name, answer).tables;
    if |t.files| < SLOTS && answer >= 0 {
      forall fd ensures fd in t'.openFds <==> exists i :: 0 <= i < |t'.files| && t'.files[i].fd == fd {
        if fd == answer {
          assert t'.files[|t.files|].fd == fd;
        } else if fd in t.openFds {
          var k :| 0 <= k < |t.files| && t.files[k].fd == fd;
          assert t'.files[k].fd == fd;
        }
      }
    }
  }

  lemma WithoutAt<T>(s: seq<T>, i: nat, k: nat)
    requires i < |s| && k < |s| - 1
    ensures Without(s, i)[k] == s[if k < i then k else k + 1]
  {
  }

  lemma CloseKeeps(t: Tables, pid: int, fd: int)
    requires TablesInv(t)
    ensures TablesInv(CloseStep(t, pid, fd).tables)
  {
    if Owns(t.files, pid, fd) && fd in t.openFds {
      var i, t' := Entry(t.files, pid, fd), CloseStep(t, pid, fd).tables;
      forall k | 0 <= k < |t'.files| ensures t'.files[k] == t.files[if k < i then k else k + 1] {
        WithoutAt(t.files, i, k);
      }
      forall d ensures d in t'.openFds <==> exists k :: 0 <= k < |t'.files| && t'.files[k].fd == d {
        if d in t'.openFds {
          var k :| 0 <= k < |t.files| && t.files[k].fd == d;
          assert k != i;
          assert t'.files[if k < i then k else k - 1].fd == d;
        }
      }
    }
  }

  /** The library stays injective, keeps what is mounted, and on success has the container on the device. */
  lemma LibraryMountKeeps(mounted: map<Bytes, Bytes>, container: Bytes, device: Bytes, answer: int)
    requires Injective(mounted)
    ensures var a := LibraryMount(mounted, container, device, answer);
      && Injective(a.mounted) && Grows(mounted, a.mounted)
      && (a.code == 0 ==> a.container in a.mounted && a.mounted[a.container] == device)
  {
  }

  ghost predicate Grows(m: map<Bytes, Bytes>, m': map<Bytes, Bytes>)
  {
    forall c :: c in m ==> c in m' && m'[c] == m[c]
  }

  lemma {:induction false} TryKeeps(a: Answer, device: Bytes, i: nat, answers: nat -> int)
    requires i <= SLOTS && Injective(a.mounted)
    requires a.code == 0 ==> a.container in a.mounted && a.mounted[a.container] == device
    ensures var b := TryPfsNames(a, device, i, answers);
      && Injective(b.mounted) && Grows(a.mounted, b.mounted)
      && (b.code == 0 ==> b.container in b.mounted && b.mounted[b.container] == device)
    decreases SLOTS - i
  {
    if i < SLOTS && a.code == -EBUSY {
      LibraryMountKeeps(a.mounted, PfsName(i), device, answers(i + 1));
      TryKeeps(LibraryMount(a.mounted, PfsName(i), device, answers(i + 1)), device, i + 1, answers);
    }
  }

  lemma MountAtKeeps(t: Tables, prefix: Bytes, device: Bytes, answers: nat -> int)
    requires MountsBacked(t) && Injective(t.mounted)
    ensures var a := MountAt(t, prefix, device, answers);
      && Injective(a.mounted) && Grows(t.mounted, a.mounted)
      && (a.code == 0 ==> a.container in a.mounted && a.mounted[a.container] == device)
  {
    var a := LibraryMount(t.mounted, prefix, device, answers(0));
    LibraryMountKeeps(t.mounted, prefix, device, answers(0));
    if a.code == -EBUSY {
      var i := First(t.mounts, OnDevice(device));
      if i < |t.mounts| {
        assert Matches(OnDevice(device), t.mounts[i]);
      } else {
        TryKeeps(a, device, 0, answers);
      }
    }
  }

  lemma MountKeeps(t: Tables, pid: int, prefix: Bytes, devname: Bytes, answers: nat -> int)
    requires TablesInv(t) && pid != 0
    ensures TablesInv(MountStep(t, pid, prefix, devname, answers).tables)
    ensures Grows(t.mounted, MountStep(t, pid, prefix, devname, answers).tables.mounted)
  {
    var device := UntilComma(devname);
    MountAtKeeps(t, prefix, device, answers);
    hide MountAt, UntilComma, TablesInv, Injective;
    var slot := First(t.mounts, Unused);
    if slot < |t.mounts| && First(t.mounts, Exactly(pid, prefix)) == |t.mounts| {
      assert Matches(Unused, t.mounts[slot]);
      forall k | 0 <= k < |t.mounts| ensures !(t.mounts[k].pid == pid && t.mounts[k].prefix == prefix) {
        assert !Matches(Exactly(pid, prefix), t.mounts[k]);
      }
      var a := MountAt(t, prefix, device, answers);
      MoreMounted(t, a.mounted);
      if a.code == 0 {
        SlotTaken(t.(mounted := a.mounted), slot, Mount(pid, prefix, a.container, device));
      }
    }
  }

  lemma MoreMounted(t: Tables, mounted: map<Bytes, Bytes>)
    requires TablesInv(t) && Injective(mounted) && Grows(t.mounted, mounted)
    ensures TablesInv(t.(mounted := mounted))
  {
    hide Injective;
  }

  /** A free slot taken by a mount that the library has, under a prefix that is new to the client. */
  lemma SlotTaken(t: Tables, slot: nat, m: Mount)
    requires TablesInv(t) && slot < |t.mounts| && t.mounts[slot].pid == 0
    requires m.container in t.mounted && t.mounted[m.container] == m.device
    requires forall k :: 0 <= k < |t.mounts| ==> !(t.mounts[k].pid == m.pid && t.mounts[k].prefix == m.prefix)
    ensures TablesInv(t.(mounts := t.mounts[slot := m]))
  {
    hide Injective;
  }

  lemma UmountKeeps(t: Tables, pid: int, prefix: Bytes)
    requires TablesInv(t)
    ensures TablesInv(UmountStep(t, pid, prefix).tables)
  {
  }

  lemma {:induction false} OthersKeepsDistinct(files: seq<OpenFile>, pid: int)
    requires DistinctFds(files)
    ensures DistinctFds(Others(files, pid)) && |Others(files, pid)| <= |files|
  {
    if files != [] {
      OthersKeepsDistinct(files[1..], pid);
      var rest := Others(files[1..], pid);
      forall k | 0 <= k < |rest| ensures rest[k].fd != files[0].fd {
        assert rest[k] in files[1..];
      }
    }
  }

  lemma CleanupKeeps(t: Tables, pid: int)
    requires TablesInv(t) && pid != 0
    ensures TablesInv(CleanupStep(t, pid))
  {
    OthersKeepsDistinct(t.files, pid);
    var t' := CleanupStep(t, pid);
    forall k | 0 <= k < |t'.files| ensures t'.files[k] in t.files && t'.files[k].pid != pid {
      assert t'.files[k] in t'.files;
    }
    CleanupKeepsFds(t, pid);
  }

  lemma CleanupKeepsFds(t: Tables, pid: int)
    requires FilesAreOpen(t) && DistinctFds(t.files)
    ensures FilesAreOpen(CleanupStep(t, pid))
  {
    var t' := CleanupStep(t, pid);
    forall fd ensures fd in t'.openFds <==> exists k :: 0 <= k < |t'.files| && t'.files[k].fd == fd {
      if fd in t'.openFds {
        var k :| 0 <= k < |t.files| && t.files[k].fd == fd;
        assert t.files[k].pid != pid;
        assert t.files[k] in t'.files;
        var j :| 0 <= j < |t'.files| && t'.files[j] == t.files[k];
      }
      if k :| 0 <= k < |t'.files| && t'.files[k].fd == fd {
        assert t'.files[k] in t'.files;
        var j :| 0 <= j < |t.files| && t.files[j] == t'.files[k];
        assert forall m :: 0 <= m < |t.files| && t.files[m].fd == fd ==> m == j;
        assert fd !in FdsOf(t.files, pid);
      }
    }
  }

  lemma OwnersStayConnected(s: System, e: Event)
    requires Inv(s) && Enabled(s, e)
    ensures OwnersConnected(Step(s, e))
  {
    match e {
      case Asked(pid, ask) =>
        if ask.Close? && Owns(s.tables.files, pid, ask.fd) && ask.fd in s.tables.openFds {
          var i := Entry(s.tables.files, pid, ask.fd);
          forall k | 0 <= k < |s.tables.files| - 1
            ensures Without(s.tables.files, i)[k] == s.tables.files[if k < i then k else k + 1]
          {
            WithoutAt(s.tables.files, i, k);
          }
        }
      case Connect(socket) =>
      case Disconnect(id) => LeaversOwnNothing(s, id);
    }
  }

  lemma LeaversOwnNothing(s: System, id: nat)
    requires Inv(s) && id < |s.clients|
    ensures OwnersConnected(Step(s, Disconnect(id)))
    ensures s.clients[id] !in Step(s, Disconnect(id)).clients
    ensures Distinct(Step(s, Disconnect(id)).clients)
  {
    var pid, rest := s.clients[id], Without(s.clients, id);
    forall k | 0 <= k < |rest| ensures rest[k] == s.clients[if k < id then k else k + 1] {
      WithoutAt(s.clients, id, k);
    }
    forall c | c in s.clients && c != pid ensures c in rest {
      var k :| 0 <= k < |s.clients| && s.clients[k] == c;
      assert rest[if k < id then k else k - 1] == c;
    }
    var files := Others(s.tables.files, pid);
    forall k | 0 <= k < |files| ensures files[k].pid in rest {
      assert files[k] in files;
    }
  }

  lemma AskKeeps(t: Tables, pid: int, ask: Ask)
    requires TablesInv(t) && pid != 0 && FromLibrary(ask)
    ensures TablesInv(AskStep(t, pid, ask).tables) && Grows(t.mounted, AskStep(t, pid, ask).tables.mounted)
  {
    hide TablesInv;
    match ask {
      case Open(name, answer) => OpenKeeps(t, pid, name, answer(t.openFds));
      case Close(fd) => CloseKeeps(t, pid, fd);
      case MountAs(prefix, devname, answers) => MountKeeps(t, pid, prefix, devname, answers);
      case Umount(prefix) => UmountKeeps(t, pid, prefix);
    }
  }

  /** Every step of every client keeps the invariant. */
  lemma StepKeepsInv(s: System, e: Event)
    requires Inv(s) && Enabled(s, e)
    ensures Inv(Step(s, e)) && Grows(s.tables.mounted, Step(s, e).tables.mounted)
  {
    hide TablesInv, OwnersConnected;
    OwnersStayConnected(s, e);
    match e {
      case Asked(pid, ask) => AskKeeps(s.tables, pid, ask);
      case Connect(socket) => TablesUnchanged(s.tables);
      case Disconnect(id) =>
        LeaversOwnNothing(s, id);
        CleanupKeeps(s.tables, s.clients[id]);
    }
  }

  lemma TablesUnchanged(t: Tables)
    ensures Grows(t.mounted, t.mounted)
  {
  }

  // ----- runs -----

  ghost predicate Possible(s: System, es: seq<Event>)
    decreases |es|
  {
    es == [] || (Enabled(s, es[0]) && Possible(Step(s, es[0]), es[1..]))
  }

  ghost function Run(s: System, es: seq<Event>): System
    requires Possible(s, es)
    decreases |es|
  {
    if es == [] then s else Run(Step(s, es[0]), es[1..])
  }

  /** The invariant holds in every reachable state, and what the library has mounted stays mounted. */
  lemma {:induction false} ReachableStatesKeepInv(s: System, es: seq<Event>)
    requires Inv(s) && Possible(s, es)
    ensures Inv(Run(s, es)) && Grows(s.tables.mounted, Run(s, es).tables.mounted)
    decreases |es|
  {
    hide Inv, Step;
    if es != [] {
      StepKeepsInv(s, es[0]);
      ReachableStatesKeepInv(Step(s, es[0]), es[1..]);
    }
  }

  lemma InitialHolds()
    ensures Inv(Initial())
  {
  }

  /** The open-file table is the library's set of open descriptors, one entry each, and every entry's mount index
      is none or a live slot of its own client. */
  lemma OpenFilesMirrorTheLibrary(es: seq<Event>)
    requires Possible(Initial(), es)
    ensures var t := Run(Initial(), es).tables;
      && |t.files| == |t.openFds|
      && DistinctFds(t.files) && FilesAreOpen(t) && IndicesLive(t)
  {
    InitialHolds();
    ReachableStatesKeepInv(Initial(), es);
    CountFds(Run(Initial(), es).tables.files, Run(Initial(), es).tables.openFds);
  }

  lemma {:induction false} CountFds(files: seq<OpenFile>, fds: set<int>)
    requires DistinctFds(files)
    requires forall fd :: fd in fds <==> exists i :: 0 <= i < |files| && files[i].fd == fd
    ensures |fds| == |files|
    decreases |files|
  {
    if files == [] {
      assert forall fd :: fd !in fds;
      assert |fds| == 0;
    } else {
      var n := |files| - 1;
      var front := files[..n];
      assert forall i :: 0 <= i < n ==> front[i] == files[i];
      forall fd ensures fd in fds - {files[n].fd} <==> exists i :: 0 <= i < |front| && front[i].fd == fd {
        if fd in fds - {files[n].fd} {
          var i :| 0 <= i < |files| && files[i].fd == fd;
          assert front[i].fd == fd;
        }
      }
      assert files[n].fd in fds;
      CountFds(front, fds - {files[n].fd});
    }
  }

  /** Two live mounts share a container exactly when they share a device, and no client has two for one prefix. */
  lemma MountsShareConsistently(es: seq<Event>, i: nat, j: nat)
    requires Possible(Initial(), es)
    requires var ms := Run(Initial(), es).tables.mounts; i < j < |ms| && ms[i].pid != 0 && ms[j].pid != 0
    ensures var t := Run(Initial(), es).tables;
      && (t.mounts[i].container == t.mounts[j].container <==> t.mounts[i].device == t.mounts[j].device)
      && (t.mounts[i].pid == t.mounts[j].pid ==> t.mounts[i].prefix != t.mounts[j].prefix)
      && t.mounts[i].container in t.mounted && t.mounted[t.mounts[i].container] == t.mounts[i].device
  {
    InitialHolds();
    ReachableStatesKeepInv(Initial(), es);
  }

  // ----- what umount does not do -----

  /** The device is mounted in the library, but no client's slot is on it. */
  ghost predicate Stranded(t: Tables, device: Bytes)
  {
    device in t.mounted.Values && First(t.mounts, OnDevice(device)) == |t.mounts|
  }

  /** The search before an unmount as the code writes it: it goes on only while i == k. */
  function StopIndex(ms: seq<Mount>, i: nat, k: nat): (r: nat)
    requires i < |ms| && k <= |ms|
    ensures k <= r <= |ms|
    decreases |ms| - k
  {
    if k < |ms| && i == k && (ms[k].pid == 0 || ms[i].container != ms[k].container) then StopIndex(ms, i, k + 1) else k
  }

  /** For a live slot the search always stops at slot 0, never at the end, so the library is never asked to unmount. */
  lemma UnmountIsNeverReached(ms: seq<Mount>, i: nat)
    requires i < |ms| && ms[i].pid != 0
    ensures StopIndex(ms, i, 0) == 0
  {
  }

  lemma StrandedIff(t: Tables, device: Bytes)
    requires device in t.mounted.Values
    ensures Stranded(t, device) <==> forall k :: 0 <= k < |t.mounts| && t.mounts[k].pid != 0 ==> t.mounts[k].device != device
  {
    var i := First(t.mounts, OnDevice(device));
    if i < |t.mounts| {
      assert Matches(OnDevice(device), t.mounts[i]);
    } else {
      forall k | 0 <= k < |t.mounts| ensures !Matches(OnDevice(device), t.mounts[k]) {
      }
    }
  }

  /** A umount leaves its device stranded exactly when no other slot was on it. */
  lemma LastUmountStrands(t: Tables, pid: int, prefix: Bytes)
    requires TablesInv(t) && pid != 0
    requires UmountStep(t, pid, prefix).reply == 0
    ensures var i := First(t.mounts, Exactly(pid, prefix));
      Stranded(UmountStep(t, pid, prefix).tables, t.mounts[i].device) <==>
        forall k :: 0 <= k < |t.mounts| && k != i && t.mounts[k].pid != 0 ==> t.mounts[k].device != t.mounts[i].device
  {
    var i := First(t.mounts, Exactly(pid, prefix));
    assert Matches(Exactly(pid, prefix), t.mounts[i]);
    var t' := UmountStep(t, pid, prefix).tables;
    var device := t.mounts[i].device;
    assert t.mounts[i].container in t'.mounted;
    hide First;
    StrandedIff(t', device);
    forall k | 0 <= k < |t.mounts| ensures t'.mounts[k] == if k == i then FREE else t.mounts[k] {
    }
  }

  /** A client's disconnect leaves a mounted device stranded exactly when nobody else has a slot on it. */
  lemma DisconnectStrandsIff(t: Tables, pid: int, device: Bytes)
    requires pid != 0 && device in t.mounted.Values
    ensures Stranded(CleanupStep(t, pid), device) <==>
      forall k :: 0 <= k < |t.mounts| && t.mounts[k].pid != 0 && t.mounts[k].device == device ==> t.mounts[k].pid == pid
  {
    hide Stranded;
    var ms := MountsOfOthers(t.mounts, pid);
    StrandedIff(CleanupStep(t, pid), device);
    if k :| 0 <= k < |ms| && ms[k].pid != 0 && ms[k].device == device {
      assert t.mounts[k] == ms[k];
    }
    if k :| 0 <= k < |t.mounts| && t.mounts[k].pid != 0 && t.mounts[k].device == device && t.mounts[k].pid != pid {
      assert ms[k] == t.mounts[k];
    }
  }

  /** One client is enough: it connects, mounts a device and unmounts it, and the device is stranded. */
  lemma OneClientStrands(socket: int, prefix: Bytes, devname: Bytes, answers: nat -> int)
    requires socket > 0 && (forall n :: answers(n) <= 0 && answers(n) != -EBUSY) && answers(0) == 0
    ensures var es := [Connect(socket), Asked(socket, MountAs(prefix, devname, answers)), Asked(socket, Umount(prefix))];
      Possible(Initial(), es) && Stranded(Run(Initial(), es).tables, UntilComma(devname))
  {
    var device := UntilComma(devname);
    var mount, umount := Asked(socket, MountAs(prefix, devname, answers)), Asked(socket, Umount(prefix));
    hide UntilComma;
    var s1 := Step(Initial(), Connect(socket));
    FirstIs(s1.tables.mounts, Unused, 0);
    FirstIs(s1.tables.mounts, Exactly(socket, prefix), SLOTS);
    var s2 := Step(s1, mount);
    assert s2.tables.mounts == s1.tables.mounts[0 := Mount(socket, prefix, prefix, device)];
    FirstIs(s2.tables.mounts, Exactly(socket, prefix), 0);
    var s3 := Step(s2, umount);
    assert prefix in s3.tables.mounted && s3.tables.mounted[prefix] == device;
    StrandedIff(s3.tables, device);
    ThreeEvents(Initial(), Connect(socket), mount, umount);
  }

  lemma RunOfOne(s: System, e: Event)
    requires Enabled(s, e)
    ensures Possible(s, [e]) && Run(s, [e]) == Step(s, e)
  {
    assert [e][1..] == [];
    assert Possible(Step(s, e), []) && Run(Step(s, e), []) == Step(s, e);
  }

  lemma RunOfCons(s: System, e: Event, es: seq<Event>)
    requires Enabled(s, e) && Possible(Step(s, e), es)
    ensures Possible(s, [e] + es) && Run(s, [e] + es) == Run(Step(s, e), es)
  {
    assert ([e] + es)[1..] == es;
  }

  lemma ThreeEvents(s: System, a: Event, b: Event, c: Event)
    requires Enabled(s, a) && Enabled(Step(s, a), b) && Enabled(Step(Step(s, a), b), c)
    ensures Possible(s, [a, b, c]) && Run(s, [a, b, c]) == Step(Step(Step(s, a), b), c)
  {
    hide Step;
    RunOfOne(Step(Step(s, a), b), c);
    RunOfCons(Step(s, a), b, [c]);
    RunOfCons(s, a, [b, c]);
    assert [a, b, c] == [a] + [b, c] && [b, c] == [b] + [c];
  }

  lemma {:induction false} NoNameForBusyDevice(a: Answer, device: Bytes, i: nat, answers: nat -> int)
    requires i <= SLOTS && a.code == -EBUSY && device in a.mounted.Values
    ensures TryPfsNames(a, device, i, answers).code == -EBUSY && TryPfsNames(a, device, i, answers).mounted == a.mounted
    decreases SLOTS - i
  {
    if i < SLOTS {
      NoNameForBusyDevice(LibraryMount(a.mounted, PfsName(i), device, answers(i + 1)), device, i + 1, answers);
    }
  }

  /** With a free slot and a new prefix, a request for a device that is mounted already is granted exactly when
      the device is not stranded. */
  lemma MountedDeviceIsGrantedIff(t: Tables, pid: int, prefix: Bytes, devname: Bytes, answers: nat -> int)
    requires UntilComma(devname) in t.mounted.Values
    requires First(t.mounts, Unused) < |t.mounts| && First(t.mounts, Exactly(pid, prefix)) == |t.mounts|
    ensures MountStep(t, pid, prefix, devname, answers).reply == 0 <==> !Stranded(t, UntilComma(devname))
  {
    var device := UntilComma(devname);
    hide UntilComma, TryPfsNames;
    NoNameForBusyDevice(LibraryMount(t.mounted, prefix, device, answers(0)), device, 0, answers);
  }

  /** A request to mount a stranded device is refused. */
  lemma StrandedMountIsRefused(t: Tables, pid: int, prefix: Bytes, devname: Bytes, answers: nat -> int)
    requires Stranded(t, UntilComma(devname))
    ensures var d := MountStep(t, pid, prefix, devname, answers);
      (d.reply == -EBUSY || d.reply == -EMFILE) && d.tables == t
  {
    var device := UntilComma(devname);
    hide UntilComma;
    NoNameForBusyDevice(LibraryMount(t.mounted, prefix, device, answers(0)), device, 0, answers);
  }

  lemma StrandedStays(s: System, e: Event, device: Bytes)
    requires Inv(s) && Enabled(s, e) && Stranded(s.tables, device)
    ensures Stranded(Step(s, e).tables, device)
  {
    hide UntilComma, Inv;
    StepKeepsInv(s, e);
    var ms, ms' := s.tables.mounts, Step(s, e).tables.mounts;
    var c :| c in s.tables.mounted && s.tables.mounted[c] == device;
    assert c in Step(s, e).tables.mounted;
    if e.Asked? && e.ask.MountAs? && UntilComma(e.ask.devname) == device {
      StrandedMountIsRefused(s.tables, e.pid, e.ask.prefix, e.ask.devname, e.ask.answers);
    }
    forall k | 0 <= k < |ms'| ensures !Matches(OnDevice(device), ms'[k]) {
      assert !Matches(OnDevice(device), ms[k]);
    }
    FirstIs(ms', OnDevice(device), |ms'|);
  }

  /** Once its last user has let go of a device, no client can mount it again, whatever happens: every later
      request for it is refused. */
  lemma {:induction false} StrandedForever(s: System, es: seq<Event>, device: Bytes)
    requires Inv(s) && Possible(s, es) && Stranded(s.tables, device)
    ensures Stranded(Run(s, es).tables, device)
    decreases |es|
  {
    hide Inv, Step, Stranded;
    if es != [] {
      StrandedStays(s, es[0], device);
      StepKeepsInv(s, es[0]);
      StrandedForever(Step(s, es[0]), es[1..], device);
    }
  }
}
