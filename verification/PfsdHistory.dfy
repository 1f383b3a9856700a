/** The daemon's tables told from outside: from the requests that clients have made, the replies they got, and the
    order in which they came. */
module PfsdHistory {
  import opened ByteStrings
  import opened PfsdTables
  import opened PfsdRuns

  // ----- one request -----

  /** Slot k is the first whose mount is the client's and whose prefix the name begins with; |ms| if there is none. */
  predicate ServedBySlot(ms: seq<Mount>, pid: int, name: Bytes, k: nat)
  {
    && k <= |ms|
    && (k < |ms| ==> ms[k].pid == pid && ms[k].prefix <= name)
    && forall j :: 0 <= j < k ==> !(ms[j].pid == pid && ms[j].prefix <= name)
  }

  lemma FirstServes(ms: seq<Mount>, pid: int, name: Bytes, k: nat)
    ensures ServedBySlot(ms, pid, name, k) <==> k == First(ms, Serving(pid, name))
  {
    var i := First(ms, Serving(pid, name));
    assert forall j :: 0 <= j < i ==> !Matches(Serving(pid, name), ms[j]);
    assert i < |ms| ==> Matches(Serving(pid, name), ms[i]);
  }

  /** The open files after a request: a close takes the client's descriptor out, a granted open puts the one that the
      client is told in, with the slot that serves the name as the client wrote it. */
  lemma FilesAfter(t: Tables, pid: int, ask: Ask, f: OpenFile)
    requires TablesInv(t) && pid != 0
    ensures f in AskStep(t, pid, ask).tables.files <==>
      || (f in t.files && !(ask.Close? && f.pid == pid && f.fd == ask.fd))
      || (ask.Open? && AskStep(t, pid, ask).reply == f.fd >= 0 && f.pid == pid
          && ServedBySlot(t.mounts, pid, ask.name, f.mountIndex))
  {
    match ask {
      case Open(name, answer) => FirstServes(t.mounts, pid, name, f.mountIndex);
      case Close(fd) =>
        if Owns(t.files, pid, fd) {
          WithoutHas(t.files, Entry(t.files, pid, fd), f);
          OwnedIsInTable(t, pid, fd);
        } else if f in t.files {
          var i :| 0 <= i < |t.files| && t.files[i] == f;
        }
      case _ =>
    }
  }

  lemma OwnedIsInTable(t: Tables, pid: int, fd: int)
    requires TablesInv(t) && Owns(t.files, pid, fd)
    ensures fd in t.openFds && Entry(t.files, pid, fd) < |t.files|
    ensures forall f :: f in t.files && f.fd == fd ==> f == t.files[Entry(t.files, pid, fd)]
  {
    var i :| 0 <= i < |t.files| && t.files[i].fd == fd && t.files[i].pid == pid;
  }

  lemma WithoutHas(s: seq<OpenFile>, i: nat, f: OpenFile)
    requires i < |s| && forall j, k :: 0 <= j < k < |s| ==> s[j].fd != s[k].fd
    ensures f in Without(s, i) <==> f in s && f != s[i]
  {
    var r := Without(s, i);
    forall k | 0 <= k < |r| ensures r[k] == s[if k < i then k else k + 1] {
      WithoutAt(s, i, k);
    }
    if f in s && f != s[i] {
      var j :| 0 <= j < |s| && s[j] == f;
      assert r[if j < i then j else j - 1] == f;
    }
  }

  /** Exactly the client's own files go with it. */
  lemma FilesAfterCleanup(t: Tables, pid: int, f: OpenFile)
    ensures f in CleanupStep(t, pid).files <==> f in t.files && f.pid != pid
  {
  }

  // ----- a run, state by state -----

  /** The states before and after each event, from the daemon's start on. */
  ghost predicate Trace(es: seq<Event>, ss: seq<System>)
  {
    && |ss| == |es| + 1 && ss[0] == Initial()
    && forall i :: 0 <= i < |es| ==> Enabled(ss[i], es[i]) && ss[i + 1] == Step(ss[i], es[i])
  }

  lemma {:induction false} TracesAreRuns(es: seq<Event>, s: System) returns (ss: seq<System>)
    requires Possible(s, es)
    ensures |ss| == |es| + 1 && ss[0] == s && ss[|es|] == Run(s, es)
    ensures forall i :: 0 <= i < |es| ==> Enabled(ss[i], es[i]) && ss[i + 1] == Step(ss[i], es[i])
    decreases |es|
  {
    hide Step;
    if es == [] {
      ss := [s];
    } else {
      var rest := TracesAreRuns(es[1..], Step(s, es[0]));
      ss := [s] + rest;
      forall i | 0 <= i < |es| ensures Enabled(ss[i], es[i]) && ss[i + 1] == Step(ss[i], es[i]) {
        if i > 0 {
          assert es[i] == es[1..][i - 1];
        }
      }
    }
  }

  lemma {:induction false} TraceKeepsInv(es: seq<Event>, ss: seq<System>, n: nat)
    requires Trace(es, ss) && n <= |es|
    ensures Inv(ss[n])
  {
    hide Inv, Step, Enabled, Initial;
    if n == 0 {
      InitialHolds();
    } else {
      TraceKeepsInv(es, ss, n - 1);
      StepKeepsInv(ss[n - 1], es[n - 1]);
    }
  }

  /** What the client of a request is told. */
  function Reply(s: System, e: Event): int
    requires e.Asked?
  {
    AskStep(s.tables, e.pid, e.ask).reply
  }

  // ----- open files -----

  /** Event i grants the client an open of a name that slot k serves. */
  predicate Opened(e: Event, s: System, pid: int, fd: int, k: nat)
  {
    && e.Asked? && e.pid == pid && e.ask.Open? && Reply(s, e) == fd >= 0
    && ServedBySlot(s.tables.mounts, pid, e.ask.name, k)
  }

  predicate Left(e: Event, s: System, pid: int)
  {
    e.Disconnect? && e.id < |s.clients| && s.clients[e.id] == pid
  }

  /** The client closes the descriptor or goes. */
  predicate Closed(e: Event, s: System, pid: int, fd: int)
  {
    e == Asked(pid, Close(fd)) || Left(e, s, pid)
  }

  /** Opened by event i and not closed before event n. */
  ghost predicate StillOpen(es: seq<Event>, ss: seq<System>, i: nat, n: nat, pid: int, fd: int, k: nat)
    requires |es| < |ss| && n <= |es|
  {
    i < n && Opened(es[i], ss[i], pid, fd, k) && forall j :: i < j < n ==> !Closed(es[j], ss[j], pid, fd)
  }

  lemma FilesAfterEvent(s: System, e: Event, f: OpenFile)
    requires Inv(s) && Enabled(s, e)
    ensures f in Step(s, e).tables.files <==>
      (f in s.tables.files && !Closed(e, s, f.pid, f.fd)) || Opened(e, s, f.pid, f.fd, f.mountIndex)
  {
    hide TablesInv, AskStep, CleanupStep, Owns;
    match e {
      case Asked(pid, ask) => FilesAfter(s.tables, pid, ask, f);
      case Connect(_) =>
      case Disconnect(id) => FilesAfterCleanup(s.tables, s.clients[id], f);
    }
  }

  /** The table of open files is the history of opens that have not been closed: descriptor, client, and the slot that
      served the name, as it was written by the client, when it was opened. */
  lemma {:induction false} FilesAreHistory(es: seq<Event>, ss: seq<System>, n: nat, f: OpenFile)
    requires Trace(es, ss) && n <= |es|
    ensures f in ss[n].tables.files <==> exists i: nat :: StillOpen(es, ss, i, n, f.pid, f.fd, f.mountIndex)
  {
    hide Inv, Step, Enabled, Opened, Closed;
    if n == 0 {
      assert ss[0].tables.files == [];
    } else {
      var m := n - 1;
      FilesAreHistory(es, ss, m, f);
      TraceKeepsInv(es, ss, m);
      FilesAfterEvent(ss[m], es[m], f);
      if f in ss[n].tables.files {
        if Opened(es[m], ss[m], f.pid, f.fd, f.mountIndex) {
          assert StillOpen(es, ss, m, n, f.pid, f.fd, f.mountIndex);
        } else {
          var i: nat :| StillOpen(es, ss, i, m, f.pid, f.fd, f.mountIndex);
          assert StillOpen(es, ss, i, n, f.pid, f.fd, f.mountIndex);
        }
      }
      if i: nat :| StillOpen(es, ss, i, n, f.pid, f.fd, f.mountIndex) {
        if i < m {
          assert StillOpen(es, ss, i, m, f.pid, f.fd, f.mountIndex);
        }
      }
    }
  }

  // ----- umount -----

  /** The tables with slot k free and everything else as it was. */
  predicate OnlySlotFreed(t: Tables, t': Tables, k: nat)
  {
    && t'.files == t.files && t'.openFds == t.openFds && t'.mounted == t.mounted
    && |t'.mounts| == |t.mounts| && k < |t.mounts| && t'.mounts[k].pid == 0
    && forall j :: 0 <= j < |t.mounts| && j != k ==> t'.mounts[j] == t.mounts[j]
  }

  /** A client's umount of a live mount is refused with -16 exactly while a descriptor is open whose name, as the
      client wrote it, that mount served; files under no mount or under another do not count. Otherwise the slot is
      freed, and nothing else changes. */
  lemma UmountIsRefusedIff(es: seq<Event>, ss: seq<System>, n: nat, pid: int, k: nat)
    requires Trace(es, ss) && n <= |es| && pid != 0
    requires k < |ss[n].tables.mounts| && ss[n].tables.mounts[k].pid == pid
    ensures var t := ss[n].tables;
      var d := AskStep(t, pid, Umount(t.mounts[k].prefix));
      && (d.reply == -16 <==> exists i: nat, fd :: StillOpen(es, ss, i, n, pid, fd, k))
      && (d.reply == -16 ==> d.tables == t)
      && (d.reply != -16 ==> d.reply == 0 && OnlySlotFreed(t, d.tables, k))
  {
    hide Inv, StillOpen, InUse;
    TraceKeepsInv(es, ss, n);
    UmountOfSlot(ss[n], pid, k);
    InUseIff(es, ss, n, pid, k);
  }

  lemma UmountOfSlot(s: System, pid: int, k: nat)
    requires Inv(s) && pid != 0 && k < |s.tables.mounts| && s.tables.mounts[k].pid == pid
    ensures var t := s.tables;
      var d := AskStep(t, pid, Umount(t.mounts[k].prefix));
      && (InUse(t.files, k) ==> d.reply == -16 && d.tables == t)
      && (!InUse(t.files, k) ==> d.reply == 0 && OnlySlotFreed(t, d.tables, k))
  {
    var t := s.tables;
    FirstIs(t.mounts, Exactly(pid, t.mounts[k].prefix), k);
    hide Inv, TablesInv, First, InUse;
  }

  lemma InUseIff(es: seq<Event>, ss: seq<System>, n: nat, pid: int, k: nat)
    requires Trace(es, ss) && n <= |es|
    requires k < |ss[n].tables.mounts| && ss[n].tables.mounts[k].pid == pid
    ensures InUse(ss[n].tables.files, k) <==> exists i: nat, fd :: StillOpen(es, ss, i, n, pid, fd, k)
  {
    var t := ss[n].tables;
    TraceKeepsInv(es, ss, n);
    hide TablesInv, Step, Enabled, Trace, StillOpen;
    if j :| 0 <= j < |t.files| && t.files[j].mountIndex == k {
      var f := t.files[j];
      FileUnderLiveSlot(t, f);
      FilesAreHistory(es, ss, n, f);
      var i: nat :| StillOpen(es, ss, i, n, f.pid, f.fd, f.mountIndex);
      assert StillOpen(es, ss, i, n, pid, f.fd, k);
    }
    if i: nat, fd :| StillOpen(es, ss, i, n, pid, fd, k) {
      FilesAreHistory(es, ss, n, OpenFile(fd, pid, k));
      assert OpenFile(fd, pid, k) in t.files;
    }
  }

  lemma FileUnderLiveSlot(t: Tables, f: OpenFile)
    requires TablesInv(t) && f in t.files && f.mountIndex < |t.mounts|
    ensures t.mounts[f.mountIndex].pid == f.pid != 0
  {
    var i :| 0 <= i < |t.files| && t.files[i] == f;
    assert f.mountIndex != SLOTS;
  }

  /** While a descriptor is open, the mount that served its name keeps its slot. */
  lemma {:induction false} ServingMountStays(es: seq<Event>, ss: seq<System>, i: nat, n: nat, pid: int, fd: int, k: nat)
    requires Trace(es, ss) && n <= |es| && StillOpen(es, ss, i, n, pid, fd, k) && k < |ss[i].tables.mounts|
    ensures k < |ss[n].tables.mounts| && ss[n].tables.mounts[k] == ss[i].tables.mounts[k]
    decreases n
  {
    hide Inv, Step, Enabled, Opened, Closed, AskStep;
    var m := n - 1;
    TraceKeepsInv(es, ss, m);
    if i < m {
      assert StillOpen(es, ss, i, m, pid, fd, k);
      ServingMountStays(es, ss, i, m, pid, fd, k);
      FilesAreHistory(es, ss, m, OpenFile(fd, pid, k));
      SlotInUseStays(ss[m], es[m], OpenFile(fd, pid, k));
    } else {
      OpenKeepsMounts(ss[m], es[m], pid, fd, k);
    }
  }

  lemma OpenKeepsMounts(s: System, e: Event, pid: int, fd: int, k: nat)
    requires Opened(e, s, pid, fd, k)
    ensures Step(s, e).tables.mounts == s.tables.mounts
  {
  }

  lemma SlotInUseStays(s: System, e: Event, f: OpenFile)
    requires Inv(s) && Enabled(s, e) && f in s.tables.files && f.mountIndex < |s.tables.mounts|
    requires !Closed(e, s, f.pid, f.fd)
    ensures var ms := Step(s, e).tables.mounts; f.mountIndex < |ms| && ms[f.mountIndex] == s.tables.mounts[f.mountIndex]
  {
    var t, k := s.tables, f.mountIndex;
    assert TablesInv(t);
    FileUnderLiveSlot(t, f);
    var j :| 0 <= j < |t.files| && t.files[j] == f;
    hide Inv, TablesInv, MountAt, UntilComma;
    match e {
      case Asked(pid, ask) =>
        match ask {
          case MountAs(prefix, devname, answers) => assert !Matches(Unused, t.mounts[k]);
          case _ =>
        }
      case _ =>
    }
  }

  // ----- mounts -----

  /** The device that a device name stands for: everything up to its first comma. */
  predicate UpToComma(device: Bytes, devname: Bytes)
  {
    device <= devname && 44 !in device && (|device| < |devname| ==> devname[|device|] == 44)
  }

  /** Two device names agree up to their first commas. */
  ghost predicate SameDevice(x: Bytes, y: Bytes)
  {
    exists n: nat :: AgreeUpTo(x, y, n)
  }

  /** The first n characters are the same and no comma; behind them comes a comma or nothing. */
  predicate AgreeUpTo(x: Bytes, y: Bytes, n: nat)
  {
    && n <= |x| && n <= |y| && (forall i :: 0 <= i < n ==> x[i] == y[i] && x[i] != 44)
    && (n < |x| ==> x[n] == 44) && (n < |y| ==> y[n] == 44)
  }

  lemma UpToCommaIs(device: Bytes, devname: Bytes)
    ensures UpToComma(device, devname) <==> device == UntilComma(devname)
  {
    var d := UntilComma(devname);
    assert forall k :: 0 <= k < |d| ==> devname[k] == d[k] != 44;
    if UpToComma(device, devname) {
      assert forall k :: 0 <= k < |device| ==> devname[k] == device[k] != 44;
    }
  }

  lemma SameDeviceIff(a: Bytes, x: Bytes, b: Bytes, y: Bytes)
    requires UpToComma(a, x) && UpToComma(b, y)
    ensures a == b <==> SameDevice(x, y)
  {
    if a == b {
      assert forall i :: 0 <= i < |a| ==> x[i] == a[i] && y[i] == a[i] && a[i] != 44;
      assert AgreeUpTo(x, y, |a|);
    }
    if SameDevice(x, y) {
      var n: nat :| AgreeUpTo(x, y, n);
      CommaAt(a, x, n);
      CommaAt(b, y, n);
    }
  }

  lemma CommaAt(a: Bytes, x: Bytes, n: nat)
    requires UpToComma(a, x) && n <= |x| && (forall i :: 0 <= i < n ==> x[i] != 44) && (n < |x| ==> x[n] == 44)
    ensures a == x[..n]
  {
    assert forall k :: 0 <= k < |a| ==> x[k] == a[k] != 44;
  }

  /** A live slot of the client for this prefix is on this device. */
  predicate LiveOn(ms: seq<Mount>, pid: int, prefix: Bytes, device: Bytes)
  {
    exists k :: 0 <= k < |ms| && ms[k].pid == pid && ms[k].prefix == prefix && ms[k].device == device
  }

  /** The client is told that its mount was granted. */
  predicate Granted(e: Event, s: System, pid: int, prefix: Bytes, devname: Bytes)
  {
    e.Asked? && e.pid == pid && e.ask.MountAs? && e.ask.prefix == prefix && e.ask.devname == devname && Reply(s, e) == 0
  }

  /** The client's umount is granted, or the client goes. */
  predicate Released(e: Event, s: System, pid: int, prefix: Bytes)
  {
    (e == Asked(pid, Umount(prefix)) && Reply(s, e) == 0) || Left(e, s, pid)
  }

  /** Granted by event i and not released before event n. */
  ghost predicate StillMounted(es: seq<Event>, ss: seq<System>, i: nat, n: nat, pid: int, prefix: Bytes, devname: Bytes)
    requires |es| < |ss| && n <= |es|
  {
    i < n && Granted(es[i], ss[i], pid, prefix, devname) && forall j :: i < j < n ==> !Released(es[j], ss[j], pid, prefix)
  }

  lemma MountsAfterMount(t: Tables, pid: int, prefix: Bytes, devname: Bytes, answers: nat -> int,
                         owner: int, p: Bytes, device: Bytes)
    requires TablesInv(t) && pid != 0 && owner != 0
    ensures var d := MountStep(t, pid, prefix, devname, answers);
      LiveOn(d.tables.mounts, owner, p, device) <==>
        LiveOn(t.mounts, owner, p, device) || (owner == pid && p == prefix && device == UntilComma(devname) && d.reply == 0)
  {
    hide MountAt, UntilComma, TablesInv;
    var d, slot := MountStep(t, pid, prefix, devname, answers), First(t.mounts, Unused);
    if d.reply == 0 {
      GrantTakesSlot(t, pid, prefix, devname, answers);
      var m := d.tables.mounts[slot];
      assert d.tables.mounts == t.mounts[slot := m];
      SlotSet(t.mounts, slot, m, owner, p, device);
    }
  }

  lemma GrantTakesSlot(t: Tables, pid: int, prefix: Bytes, devname: Bytes, answers: nat -> int)
    requires MountStep(t, pid, prefix, devname, answers).reply == 0
    ensures var d, slot := MountStep(t, pid, prefix, devname, answers), First(t.mounts, Unused);
      && slot < |t.mounts| && t.mounts[slot].pid == 0 && |d.tables.mounts| == |t.mounts|
      && var m := d.tables.mounts[slot];
         d.tables.mounts == t.mounts[slot := m] && m.pid == pid && m.prefix == prefix && m.device == UntilComma(devname)
  {
    hide MountAt, UntilComma;
    assert First(t.mounts, Unused) < |t.mounts| ==> Matches(Unused, t.mounts[First(t.mounts, Unused)]);
  }

  lemma SlotSet(ms: seq<Mount>, slot: nat, m: Mount, owner: int, p: Bytes, device: Bytes)
    requires slot < |ms| && ms[slot].pid == 0 && owner != 0
    ensures LiveOn(ms[slot := m], owner, p, device) <==>
      LiveOn(ms, owner, p, device) || (m.pid == owner && m.prefix == p && m.device == device)
  {
    var ms' := ms[slot := m];
    if LiveOn(ms, owner, p, device) {
      var k :| 0 <= k < |ms| && ms[k].pid == owner && ms[k].prefix == p && ms[k].device == device;
      assert k != slot && ms'[k] == ms[k];
    }
    if LiveOn(ms', owner, p, device) {
      var k :| 0 <= k < |ms'| && ms'[k].pid == owner && ms'[k].prefix == p && ms'[k].device == device;
      assert k != slot ==> ms'[k] == ms[k];
    }
    if m.pid == owner && m.prefix == p && m.device == device {
      assert ms'[slot] == m;
    }
  }

  lemma MountsAfterUmount(t: Tables, pid: int, prefix: Bytes, owner: int, p: Bytes, device: Bytes)
    requires TablesInv(t) && pid != 0 && owner != 0
    ensures var d := UmountStep(t, pid, prefix);
      LiveOn(d.tables.mounts, owner, p, device) <==>
        LiveOn(t.mounts, owner, p, device) && !(owner == pid && p == prefix && d.reply == 0)
  {
    var i := First(t.mounts, Exactly(pid, prefix));
    if i < |t.mounts| {
      assert Matches(Exactly(pid, prefix), t.mounts[i]);
      PrefixIsUnique(t, i);
      hide TablesInv, First;
      var ms' := t.mounts[i := FREE];
      forall k | 0 <= k < |t.mounts| ensures ms'[k] == if k == i then FREE else t.mounts[k] {
      }
    } else {
      forall k | 0 <= k < |t.mounts| ensures !(t.mounts[k].pid == pid && t.mounts[k].prefix == prefix) {
        assert !Matches(Exactly(pid, prefix), t.mounts[k]);
      }
    }
  }

  lemma PrefixIsUnique(t: Tables, i: nat)
    requires TablesInv(t) && i < |t.mounts| && t.mounts[i].pid != 0
    ensures forall k :: 0 <= k < |t.mounts| && t.mounts[k].pid == t.mounts[i].pid && t.mounts[k].prefix == t.mounts[i].prefix ==> k == i
  {
  }

  lemma MountsAfterCleanup(t: Tables, pid: int, owner: int, p: Bytes, device: Bytes)
    requires owner != 0
    ensures LiveOn(CleanupStep(t, pid).mounts, owner, p, device) <==> LiveOn(t.mounts, owner, p, device) && owner != pid
  {
    var ms := MountsOfOthers(t.mounts, pid);
    if LiveOn(ms, owner, p, device) {
      var k :| 0 <= k < |ms| && ms[k].pid == owner && ms[k].prefix == p && ms[k].device == device;
      assert t.mounts[k] == ms[k];
    }
    if LiveOn(t.mounts, owner, p, device) && owner != pid {
      var k :| 0 <= k < |ms| && t.mounts[k].pid == owner && t.mounts[k].prefix == p && t.mounts[k].device == device;
      assert ms[k] == t.mounts[k];
    }
  }

  lemma MountsAfterEvent(s: System, e: Event, pid: int, prefix: Bytes, device: Bytes)
    requires Inv(s) && Enabled(s, e) && pid != 0
    ensures LiveOn(Step(s, e).tables.mounts, pid, prefix, device) <==>
      || (LiveOn(s.tables.mounts, pid, prefix, device) && !Released(e, s, pid, prefix))
      || exists devname :: Granted(e, s, pid, prefix, devname) && UpToComma(device, devname)
  {
    hide TablesInv, LiveOn, MountStep, UmountStep, CleanupStep, UntilComma, UpToComma;
    match e {
      case Asked(c, ask) =>
        match ask {
          case MountAs(p, devname, answers) =>
            MountsAfterMount(s.tables, c, p, devname, answers, pid, prefix, device);
            UpToCommaIs(device, devname);
            if c == pid && p == prefix && device == UntilComma(devname) && Reply(s, e) == 0 {
              assert Granted(e, s, pid, prefix, devname) && UpToComma(device, devname);
            }
          case Umount(p) => MountsAfterUmount(s.tables, c, p, pid, prefix, device);
          case _ =>
        }
      case Connect(_) =>
      case Disconnect(id) => MountsAfterCleanup(s.tables, s.clients[id], pid, prefix, device);
    }
  }

  /** The live mounts are the history of granted mounts that have not been released: client, prefix, and the device up
      to the first comma of the name that the client sent. */
  lemma {:induction false} MountsAreHistory(es: seq<Event>, ss: seq<System>, n: nat, pid: int, prefix: Bytes, device: Bytes)
    requires Trace(es, ss) && n <= |es| && pid != 0
    ensures LiveOn(ss[n].tables.mounts, pid, prefix, device) <==>
      exists i: nat, devname :: StillMounted(es, ss, i, n, pid, prefix, devname) && UpToComma(device, devname)
  {
    hide Inv, Step, Enabled, Granted, Released, LiveOn, UpToComma;
    if n == 0 {
      NoMountsAtStart(pid, prefix, device);
    } else {
      var m := n - 1;
      MountsAreHistory(es, ss, m, pid, prefix, device);
      TraceKeepsInv(es, ss, m);
      MountsAfterEvent(ss[m], es[m], pid, prefix, device);
      if devname :| Granted(es[m], ss[m], pid, prefix, devname) && UpToComma(device, devname) {
        assert StillMounted(es, ss, m, n, pid, prefix, devname);
      } else if LiveOn(ss[n].tables.mounts, pid, prefix, device) {
        var i: nat, devname :| StillMounted(es, ss, i, m, pid, prefix, devname) && UpToComma(device, devname);
        assert StillMounted(es, ss, i, n, pid, prefix, devname);
      }
      if i: nat, devname :| StillMounted(es, ss, i, n, pid, prefix, devname) && UpToComma(device, devname) {
        if i < m {
          assert StillMounted(es, ss, i, m, pid, prefix, devname);
        }
      }
    }
  }

  lemma NoMountsAtStart(pid: int, prefix: Bytes, device: Bytes)
    requires pid != 0
    ensures !LiveOn(Initial().tables.mounts, pid, prefix, device)
  {
  }

  /** Two clients' granted mounts, as long as neither is released, share a container exactly when the device names that
      the clients sent agree up to their first commas; the slots are found by client and prefix. */
  lemma SharedIffSameDevice(es: seq<Event>, ss: seq<System>, n: nat, a: nat, b: nat, i: nat, x: Bytes, j: nat, y: Bytes)
    requires Trace(es, ss) && n <= |es|
    requires var ms := ss[n].tables.mounts; a < |ms| && b < |ms| && ms[a].pid != 0 && ms[b].pid != 0
    requires StillMounted(es, ss, i, n, ss[n].tables.mounts[a].pid, ss[n].tables.mounts[a].prefix, x)
    requires StillMounted(es, ss, j, n, ss[n].tables.mounts[b].pid, ss[n].tables.mounts[b].prefix, y)
    ensures var ms := ss[n].tables.mounts; ms[a].container == ms[b].container <==> SameDevice(x, y)
  {
    var ms := ss[n].tables.mounts;
    hide Trace, StillMounted, SameDevice, Inv;
    DeviceOfSlot(es, ss, n, a, i, x);
    DeviceOfSlot(es, ss, n, b, j, y);
    SameDeviceIff(ms[a].device, x, ms[b].device, y);
    TraceKeepsInv(es, ss, n);
    SharedContainer(ss[n], a, b);
  }

  lemma SharedContainer(s: System, a: nat, b: nat)
    requires Inv(s)
    requires var ms := s.tables.mounts; a < |ms| && b < |ms| && ms[a].pid != 0 && ms[b].pid != 0
    ensures var ms := s.tables.mounts; ms[a].container == ms[b].container <==> ms[a].device == ms[b].device
  {
  }

  lemma DeviceOfSlot(es: seq<Event>, ss: seq<System>, n: nat, k: nat, i: nat, devname: Bytes)
    requires Trace(es, ss) && n <= |es|
    requires k < |ss[n].tables.mounts| && ss[n].tables.mounts[k].pid != 0
    requires StillMounted(es, ss, i, n, ss[n].tables.mounts[k].pid, ss[n].tables.mounts[k].prefix, devname)
    ensures UpToComma(ss[n].tables.mounts[k].device, devname)
  {
    var m := ss[n].tables.mounts[k];
    var device := UntilComma(devname);
    UpToCommaIs(device, devname);
    MountsAreHistory(es, ss, n, m.pid, m.prefix, device);
    TraceKeepsInv(es, ss, n);
    hide StillMounted, Trace, UpToComma, UntilComma;
    assert StillMounted(es, ss, i, n, m.pid, m.prefix, devname) && UpToComma(device, devname);
    assert LiveOn(ss[n].tables.mounts, m.pid, m.prefix, device);
    PrefixIsUnique(ss[n].tables, k);
  }

  // ----- what clients are told -----

  /** A close is granted exactly to the client that has the descriptor open, and closes it in the library; any other
      gets -9 and changes nothing. */
  lemma CloseIsGrantedIff(es: seq<Event>, ss: seq<System>, n: nat, pid: int, fd: int)
    requires Trace(es, ss) && n <= |es|
    ensures var t := ss[n].tables;
      var d := AskStep(t, pid, Close(fd));
      && (d.reply == 0 <==> exists i: nat, k :: StillOpen(es, ss, i, n, pid, fd, k))
      && (d.reply == 0 ==> d.tables.openFds == t.openFds - {fd} && fd in t.openFds)
      && (d.reply != 0 ==> d.reply == -9 && d.tables == t)
      && d.tables.mounts == t.mounts && d.tables.mounted == t.mounted
  {
    var t := ss[n].tables;
    TraceKeepsInv(es, ss, n);
    hide Step, Enabled, Trace, StillOpen;
    if Owns(t.files, pid, fd) {
      OwnedIsInTable(t, pid, fd);
      var j :| 0 <= j < |t.files| && t.files[j].fd == fd && t.files[j].pid == pid;
      FilesAreHistory(es, ss, n, t.files[j]);
      var i: nat :| StillOpen(es, ss, i, n, pid, fd, t.files[j].mountIndex);
    }
    if i: nat, k :| StillOpen(es, ss, i, n, pid, fd, k) {
      FilesAreHistory(es, ss, n, OpenFile(fd, pid, k));
      OwnedByEntry(t.files, OpenFile(fd, pid, k));
    }
  }

  lemma OwnedByEntry(files: seq<OpenFile>, f: OpenFile)
    requires f in files
    ensures Owns(files, f.pid, f.fd)
  {
    var j :| 0 <= j < |files| && files[j] == f;
  }

  /** An open is refused with -24 exactly when 32 descriptors are open; otherwise the client is told what the library
      says, and a descriptor that it hands out is open from then on. */
  lemma OpenIsGrantedIff(s: System, pid: int, name: Bytes, answer: set<int> -> int)
    requires Inv(s)
    ensures var t, a := s.tables, answer(s.tables.openFds);
      var d := AskStep(t, pid, Open(name, answer));
      && d.reply == (if |t.openFds| == 32 then -24 else a)
      && d.tables.openFds == (if |t.openFds| < 32 && a >= 0 then t.openFds + {a} else t.openFds)
      && d.tables.mounts == t.mounts && d.tables.mounted == t.mounted
  {
    CountFds(s.tables.files, s.tables.openFds);
  }

  /** "pfs0:" to "pfs31:" */
  predicate IsPfsName(c: Bytes, i: nat)
  {
    i < 32 && c == [112, 102, 115] + (if i < 10 then [48 + i] else [48 + i / 10, 48 + i % 10]) + [58]
  }

  /** pfs<i>: is c, and the first that nothing is mounted as. */
  ghost predicate FirstFree(mounted: map<Bytes, Bytes>, c: Bytes, i: nat)
  {
    IsPfsName(c, i) && c !in mounted && forall j: nat, b :: j < i && IsPfsName(b, j) ==> b in mounted
  }

  /** No slot is free. */
  predicate Full(ms: seq<Mount>) { forall k :: 0 <= k < |ms| ==> ms[k].pid != 0 }

  predicate HasPrefix(ms: seq<Mount>, pid: int, prefix: Bytes)
  {
    exists k :: 0 <= k < |ms| && ms[k].pid == pid && ms[k].prefix == prefix
  }

  /** A free slot has been given to the client, for its prefix, on this device, with this container; the library has
      this mounted; nothing else has changed. */
  predicate SlotGiven(t: Tables, t': Tables, m: Mount, mounted: map<Bytes, Bytes>)
  {
    && t'.files == t.files && t'.openFds == t.openFds && t'.mounted == mounted && |t'.mounts| == |t.mounts|
    && exists k :: 0 <= k < |t.mounts| && t.mounts[k].pid == 0 && t'.mounts == t.mounts[k := m]
  }

  /** What a mount is told: -24 without a free slot, -16 when the client has the prefix already. */
  lemma MountNeedsSlotAndPrefix(t: Tables, pid: int, prefix: Bytes, devname: Bytes, answers: nat -> int)
    requires pid != 0
    ensures var d := AskStep(t, pid, MountAs(prefix, devname, answers));
      && (Full(t.mounts) ==> d == Done(-24, t))
      && (!Full(t.mounts) && HasPrefix(t.mounts, pid, prefix) ==> d == Done(-16, t))
  {
    FreeSlot(t.mounts);
    PrefixTaken(t.mounts, pid, prefix);
  }

  lemma FreeSlot(ms: seq<Mount>)
    ensures First(ms, Unused) == |ms| <==> Full(ms)
    ensures !Full(ms) ==> First(ms, Unused) < |ms| && ms[First(ms, Unused)].pid == 0
  {
    var i := First(ms, Unused);
    assert i < |ms| ==> Matches(Unused, ms[i]);
    forall k | 0 <= k < i ensures ms[k].pid != 0 {
      assert !Matches(Unused, ms[k]);
    }
  }

  lemma PrefixTaken(ms: seq<Mount>, pid: int, prefix: Bytes)
    ensures First(ms, Exactly(pid, prefix)) < |ms| <==> HasPrefix(ms, pid, prefix)
  {
    var i := First(ms, Exactly(pid, prefix));
    assert i < |ms| ==> Matches(Exactly(pid, prefix), ms[i]);
    forall k | 0 <= k < i ensures !(ms[k].pid == pid && ms[k].prefix == prefix) {
      assert !Matches(Exactly(pid, prefix), ms[k]);
    }
  }

  /** With both: a device that nothing is mounted on goes under the client's own name if that is free, and otherwise
      under the first of pfs0: to pfs31: that is free; the client is told the library's answer for that request. */
  lemma MountOfFreeDevice(t: Tables, pid: int, prefix: Bytes, devname: Bytes, device: Bytes, answers: nat -> int)
    requires pid != 0 && !Full(t.mounts) && !HasPrefix(t.mounts, pid, prefix)
    requires UpToComma(device, devname) && device !in t.mounted.Values && forall n :: answers(n) <= 0 && answers(n) != -16
    requires TablesInv(t)
    ensures var d := AskStep(t, pid, MountAs(prefix, devname, answers));
      && (prefix !in t.mounted ==>
            d.reply == answers(0)
            && (d.reply == 0 ==> SlotGiven(t, d.tables, Mount(pid, prefix, prefix, device), t.mounted[prefix := device]))
            && (d.reply != 0 ==> d.tables == t))
      && (forall i: nat, c :: prefix in t.mounted && FirstFree(t.mounted, c, i) ==>
            && d.reply == answers(i + 1)
            && (d.reply == 0 ==> SlotGiven(t, d.tables, Mount(pid, prefix, c, device), t.mounted[c := device]))
            && (d.reply != 0 ==> d.tables == t))
      && (prefix in t.mounted && (forall j: nat, b :: IsPfsName(b, j) ==> b in t.mounted) ==> d == Done(-16, t))
  {
    FreeSlot(t.mounts);
    PrefixTaken(t.mounts, pid, prefix);
    UpToCommaIs(device, devname);
    NoSlotOnDevice(t, device);
    var d := AskStep(t, pid, MountAs(prefix, devname, answers));
    var a := LibraryMount(t.mounted, prefix, device, answers(0));
    hide UntilComma, TryPfsNames, First, TablesInv, IsPfsName, Full, HasPrefix;
    if prefix in t.mounted {
      forall i: nat, c | FirstFree(t.mounted, c, i)
        ensures d.reply == answers(i + 1)
            && (d.reply == 0 ==> SlotGiven(t, d.tables, Mount(pid, prefix, c, device), t.mounted[c := device]))
            && (d.reply != 0 ==> d.tables == t)
      {
        FirstFreeName(a, device, 0, answers, i, c);
      }
      if forall j: nat, b :: IsPfsName(b, j) ==> b in t.mounted {
        NoFreeName(a, device, 0, answers);
      }
    }
  }

  lemma NoSlotOnDevice(t: Tables, device: Bytes)
    requires TablesInv(t) && device !in t.mounted.Values
    ensures First(t.mounts, OnDevice(device)) == |t.mounts|
  {
    assert forall c :: c in t.mounted ==> t.mounted[c] in t.mounted.Values;
    forall k | 0 <= k < |t.mounts| ensures !Matches(OnDevice(device), t.mounts[k]) {
      assert t.mounts[k].pid != 0 ==> t.mounted[t.mounts[k].container] == t.mounts[k].device;
    }
    FirstIs(t.mounts, OnDevice(device), |t.mounts|);
  }

  lemma PfsNameIs(i: nat)
    requires i < 32
    ensures IsPfsName(PfsName(i), i) && forall c :: IsPfsName(c, i) ==> c == PfsName(i)
  {
  }

  lemma {:induction false} FirstFreeName(a: Answer, device: Bytes, j: nat, answers: nat -> int, i: nat, c: Bytes)
    requires j <= i < 32 && a.code == -16 && IsPfsName(c, i) && c !in a.mounted && device !in a.mounted.Values
    requires forall k: nat, b :: k < i && IsPfsName(b, k) ==> b in a.mounted
    requires forall n :: answers(n) <= 0 && answers(n) != -16
    ensures TryPfsNames(a, device, j, answers)
      == Answer(answers(i + 1), c, if answers(i + 1) == 0 then a.mounted[c := device] else a.mounted)
    decreases i - j
  {
    hide PfsName;
    PfsNameIs(j);
    hide IsPfsName;
    if j < i {
      assert PfsName(j) in a.mounted;
      FirstFreeName(LibraryMount(a.mounted, PfsName(j), device, answers(j + 1)), device, j + 1, answers, i, c);
    } else {
      assert PfsName(j) == c;
    }
  }

  lemma {:induction false} NoFreeName(a: Answer, device: Bytes, j: nat, answers: nat -> int)
    requires j <= 32 && a.code == -16 && forall k: nat, b :: IsPfsName(b, k) ==> b in a.mounted
    ensures TryPfsNames(a, device, j, answers).code == -16 && TryPfsNames(a, device, j, answers).mounted == a.mounted
    decreases 32 - j
  {
    hide PfsName;
    if j < 32 {
      PfsNameIs(j);
      assert PfsName(j) in a.mounted;
      NoFreeName(LibraryMount(a.mounted, PfsName(j), device, answers(j + 1)), device, j + 1, answers);
    }
  }

  /** A device that is mounted already: a client that can have a slot gets the container that it is mounted under as
      long as some slot is on it, and -16 otherwise; the library is not asked for anything new. */
  lemma MountOfMountedDevice(t: Tables, pid: int, prefix: Bytes, devname: Bytes, device: Bytes, answers: nat -> int, c: Bytes)
    requires pid != 0 && !Full(t.mounts) && !HasPrefix(t.mounts, pid, prefix)
    requires UpToComma(device, devname) && c in t.mounted && t.mounted[c] == device && TablesInv(t)
    ensures var d := AskStep(t, pid, MountAs(prefix, devname, answers));
      if exists k :: 0 <= k < |t.mounts| && t.mounts[k].pid != 0 && t.mounts[k].device == device
      then d.reply == 0 && SlotGiven(t, d.tables, Mount(pid, prefix, c, device), t.mounted)
      else d == Done(-16, t)
  {
    FreeSlot(t.mounts);
    PrefixTaken(t.mounts, pid, prefix);
    UpToCommaIs(device, devname);
    StrandedIff(t, device);
    MountedDeviceIsGrantedIff(t, pid, prefix, devname, answers);
    ContainerOfDevice(t, device, c);
    if Stranded(t, device) {
      StrandedMountIsRefused(t, pid, prefix, devname, answers);
      assert LibraryMount(t.mounted, prefix, device, answers(0)).code == -16;
      NoNameForBusyDevice(LibraryMount(t.mounted, prefix, device, answers(0)), device, 0, answers);
    } else {
      var slot := First(t.mounts, Unused);
      assert MountAt(t, prefix, device, answers) == Answer(0, c, t.mounted);
      assert AskStep(t, pid, MountAs(prefix, devname, answers)).tables.mounts == t.mounts[slot := Mount(pid, prefix, c, device)];
    }
  }

  lemma ContainerOfDevice(t: Tables, device: Bytes, c: Bytes)
    requires TablesInv(t) && c in t.mounted && t.mounted[c] == device
    ensures var i := First(t.mounts, OnDevice(device)); i < |t.mounts| ==> t.mounts[i].container == c
  {
    var i := First(t.mounts, OnDevice(device));
    if i < |t.mounts| {
      assert Matches(OnDevice(device), t.mounts[i]);
    }
  }

  // ----- names -----

  /** The name that reaches the library, exactly: under the client's first mount that serves it, that mount's container
      and the rest of the name; otherwise nothing if it lies under anybody's container, and the name itself if not. */
  lemma RemappedExactly(ms: seq<Mount>, pid: int, name: Bytes, k: nat)
    requires ServedBySlot(ms, pid, name, k)
    ensures var r := Remapped(ms, pid, name);
      && (k < |ms| ==> r == ms[k].container + name[|ms[k].prefix|..])
      && (k == |ms| && (exists j :: 0 <= j < |ms| && ms[j].pid != 0 && ms[j].container <= name) ==> r == [])
      && (k == |ms| && !(exists j :: 0 <= j < |ms| && ms[j].pid != 0 && ms[j].container <= name) ==> r == name)
  {
    FirstServes(ms, pid, name, k);
  }
}
