/** What clients of the daemon can rely on in every interleaving: who gets at a descriptor, which names reach the
    library, and what is in the segment afterwards; said by the requests and replies of the run. */
module PfsdCalls {
  import opened ByteStrings
  import opened PfsdTables
  import opened PfsdService
  import opened PfsdHistory
  import Runs = PfsdRuns
  import P = PfsdProtocol

  /** The segment as a request finds it: the call's input, then what was there. */
  function Before(call: P.Call<Request>, shm: Bytes): Bytes
    requires |call.input| <= |shm|
  {
    call.input + shm[|call.input|..]
  }

  /** The replies to the call in the given state of the daemon and of the segment. */
  function Replies(server: Tables, shm: Bytes, c: int, call: P.Call<Request>): seq<int>
    requires |call.input| <= |shm|
  {
    Pfsd().handle(server, Before(call, shm), c, call.request).replies
  }

  // ----- who has a descriptor open -----

  /** The client is told that it has opened fd. */
  predicate OpenedBy(deed: P.Deed<Request>, server: Tables, shm: Bytes, c: int, fd: int)
  {
    && deed.Served? && deed.client == c && deed.call.request.Tabled? && deed.call.request.ask.Open?
    && |deed.call.input| <= |shm| && fd >= 0 && Replies(server, shm, c, deed.call) == [fd]
  }

  /** The client closes fd or goes. */
  predicate ClosedBy(deed: P.Deed<Request>, c: int, fd: int)
  {
    match deed
    case Dropped(client) => client == c
    case Served(client, call) =>
      client == c && call.request.Tabled? && call.request.ask.Close? && call.request.ask.fd == fd
  }

  /** One of the first n deeds has opened fd for the client, and no later one of them has closed it. */
  ghost predicate HasOpen(deeds: seq<P.Deed<Request>>, servers: seq<Tables>, shms: seq<Bytes>, n: nat, c: int, fd: int)
    requires n <= |deeds| < |servers| && |deeds| < |shms|
  {
    exists i :: 0 <= i < n && OpenedBy(deeds[i], servers[i], shms[i], c, fd)
      && forall j :: i < j < n ==> !ClosedBy(deeds[j], c, fd)
  }

  /** From the daemon's start on, with proper sockets and a library that keeps to its contract. */
  ghost predicate FromStart(deeds: seq<P.Deed<Request>>, servers: seq<Tables>, shms: seq<Bytes>)
  {
    P.Trace(Pfsd(), deeds, servers, shms) && servers[0] == Runs.Initial().tables && AllowedDeeds(deeds)
  }

  ghost predicate Has(files: seq<OpenFile>, c: int, fd: int) { exists k :: OpenFile(fd, c, k) in files }

  lemma OwnsIffHas(files: seq<OpenFile>, c: int, fd: int)
    ensures Owns(files, c, fd) <==> Has(files, c, fd)
  {
    if i :| 0 <= i < |files| && files[i].fd == fd && files[i].pid == c {
      assert OpenFile(fd, c, files[i].mountIndex) in files;
    }
    if k :| OpenFile(fd, c, k) in files {
      OwnedByEntry(files, OpenFile(fd, c, k));
    }
  }

  lemma FilesAfterDeed(deed: P.Deed<Request>, t: Tables, shm: Bytes, t': Tables, shm': Bytes, c: int, fd: int)
    requires P.Done(Pfsd(), deed, t, shm, t', shm') && Runs.TablesInv(t) && AllowedDeeds([deed])
    ensures Runs.TablesInv(t')
    ensures Has(t'.files, c, fd) <==>
      (Has(t.files, c, fd) && !ClosedBy(deed, c, fd)) || OpenedBy(deed, t, shm, c, fd)
  {
    assert [deed][0] == deed;
    match deed {
      case Dropped(client) =>
        Runs.CleanupKeeps(t, client);
        forall k ensures OpenFile(fd, c, k) in t'.files <==> OpenFile(fd, c, k) in t.files && c != client {
          FilesAfterCleanup(t, client, OpenFile(fd, c, k));
        }
      case Served(client, call) =>
        HandleKeeps(t, Before(call, shm), client, call.request);
        if call.request.Tabled? {
          FilesAfterTabled(t, client, call.request.ask, c, fd);
          hide Runs.TablesInv, AskStep;
        }
    }
  }

  lemma FilesAfterTabled(t: Tables, client: int, ask: Ask, c: int, fd: int)
    requires Runs.TablesInv(t) && client != 0
    ensures Has(AskStep(t, client, ask).tables.files, c, fd) <==>
      || (Has(t.files, c, fd) && !(ask.Close? && client == c && ask.fd == fd))
      || (ask.Open? && client == c && AskStep(t, client, ask).reply == fd >= 0)
  {
    var d := AskStep(t, client, ask);
    hide Runs.TablesInv, AskStep;
    forall k {:trigger OpenFile(fd, c, k)}
      ensures OpenFile(fd, c, k) in d.tables.files <==>
        || (OpenFile(fd, c, k) in t.files && !(ask.Close? && c == client && fd == ask.fd))
        || (ask.Open? && d.reply == fd >= 0 && c == client && ServedBySlot(t.mounts, client, ask.name, k))
    {
      FilesAfter(t, client, ask, OpenFile(fd, c, k));
    }
    if ask.Open? && client == c && d.reply == fd >= 0 {
      FirstServes(t.mounts, client, ask.name, First(t.mounts, Serving(client, ask.name)));
      assert OpenFile(fd, c, First(t.mounts, Serving(client, ask.name))) in d.tables.files;
    }
  }

  /** The daemon lets a client at exactly the descriptors that the client has open. */
  lemma {:induction false} DescriptorsAreHistory(deeds: seq<P.Deed<Request>>, servers: seq<Tables>, shms: seq<Bytes>,
                                                 n: nat, c: int, fd: int)
    requires FromStart(deeds, servers, shms) && n <= |deeds|
    ensures Runs.TablesInv(servers[n])
    ensures Has(servers[n].files, c, fd) <==> HasOpen(deeds, servers, shms, n, c, fd)
  {
    hide Runs.TablesInv, Has, OpenedBy, ClosedBy, P.Done;
    if n == 0 {
      StartIsEmpty(c, fd);
    } else {
      var m := n - 1;
      DescriptorsAreHistory(deeds, servers, shms, m, c, fd);
      assert P.Done(Pfsd(), deeds[m], servers[m], shms[m], servers[m + 1], shms[m + 1]);
      assert AllowedDeeds([deeds[m]]);
      FilesAfterDeed(deeds[m], servers[m], shms[m], servers[n], shms[n], c, fd);
      HasOpenNext(deeds, servers, shms, m, c, fd);
    }
  }

  lemma StartIsEmpty(c: int, fd: int)
    ensures Runs.TablesInv(Runs.Initial().tables) && !Has(Runs.Initial().tables.files, c, fd)
  {
    Runs.InitialHolds();
  }

  lemma HasOpenNext(deeds: seq<P.Deed<Request>>, servers: seq<Tables>, shms: seq<Bytes>, m: nat, c: int, fd: int)
    requires m < |deeds| < |servers| && |deeds| < |shms|
    ensures HasOpen(deeds, servers, shms, m + 1, c, fd) <==>
      || (HasOpen(deeds, servers, shms, m, c, fd) && !ClosedBy(deeds[m], c, fd))
      || OpenedBy(deeds[m], servers[m], shms[m], c, fd)
  {
    hide OpenedBy, ClosedBy;
    if HasOpen(deeds, servers, shms, m + 1, c, fd) && !OpenedBy(deeds[m], servers[m], shms[m], c, fd) {
      var i :| 0 <= i < m + 1 && OpenedBy(deeds[i], servers[i], shms[i], c, fd)
        && forall j :: i < j < m + 1 ==> !ClosedBy(deeds[j], c, fd);
      assert i < m;
    }
  }

  // ----- calls on a descriptor -----

  /** lseek, read, write, dread and ioctl: the client that has the descriptor open is told the library's result and
      finds its bytes in the segment; any other is told -9, and the segment stays. The tables never change. */
  lemma OnlyOwnersReachDescriptors(deeds: seq<P.Deed<Request>>, servers: seq<Tables>, shms: seq<Bytes>, n: nat)
    requires FromStart(deeds, servers, shms) && n < |deeds|
    requires deeds[n].Served? && deeds[n].call.request.OnDescriptor?
    ensures var c, call := deeds[n].client, deeds[n].call;
      && |call.input| <= |shms[n]| && |shms[n + 1]| == |shms[n]|
      && var before := Before(call, shms[n]);
      && servers[n + 1] == servers[n]
      && if HasOpen(deeds, servers, shms, n, c, call.request.fd)
         then Replies(servers[n], shms[n], c, call) == [call.request.result]
              && forall k :: 0 <= k < |before| ==>
                shms[n + 1][k] == if k < |call.request.bytes| then call.request.bytes[k] else before[k]
         else Replies(servers[n], shms[n], c, call) == [-9] && shms[n + 1] == before
  {
    var c, call := deeds[n].client, deeds[n].call;
    DescriptorsAreHistory(deeds, servers, shms, n, c, call.request.fd);
    OwnsIffHas(servers[n].files, c, call.request.fd);
    assert P.Done(Pfsd(), deeds[n], servers[n], shms[n], servers[n + 1], shms[n + 1]);
    hide HasOpen, Has, Owns, AllowedDeeds, Runs.TablesInv, WrittenTo;
  }

  /** Over all interleavings: a finished call on a descriptor has the library's result and bytes if the client had the
      descriptor open when the daemon came to it, and otherwise a negative reply and its own input back. */
  lemma FinishedCallsOnDescriptors(shm: Bytes, actions: seq<P.Action<Request>>)
    returns (servers: seq<Tables>, shms: seq<Bytes>, at: seq<nat>)
    requires var st0 := P.Initial<Tables, Request>(Runs.Initial().tables, shm);
      && P.Possible(Pfsd(), st0, actions) && P.AllHonest(Pfsd(), actions)
      && forall i :: 0 <= i < |actions| ==> Allowed(actions[i])
    ensures var st := P.Run(Pfsd(), P.Initial<Tables, Request>(Runs.Initial().tables, shm), actions);
      && FromStart(st.deeds, servers, shms) && P.Match(Pfsd(), st.deeds, servers, shms, at, st.finished)
      && forall j :: 0 <= j < |st.finished| && st.finished[j].call.request.OnDescriptor? ==>
        DescriptorAnswer(st.deeds, servers, shms, at[j], st.finished[j])
  {
    var st0 := P.Initial<Tables, Request>(Runs.Initial().tables, shm);
    servers, shms, at := P.EveryRunIsATrace(Pfsd(), Runs.Initial().tables, shm, actions);
    var st := P.Run(Pfsd(), st0, actions);
    Runs.InitialHolds();
    InterleavedRunsKeepTheTables(st0, actions);
    hide P.Possible, P.Run, P.AllHonest, Runs.TablesInv, Allowed, Runs.Initial;
    forall j | 0 <= j < |st.finished| && st.finished[j].call.request.OnDescriptor?
      ensures DescriptorAnswer(st.deeds, servers, shms, at[j], st.finished[j])
    {
      assert P.Seen(Pfsd(), st.deeds[at[j]], servers[at[j]], shms[at[j]], shms[at[j] + 1], st.finished[j]);
      OnlyOwnersReachDescriptors(st.deeds, servers, shms, at[j]);
      AnswerIs(st.deeds, servers, shms, at[j], st.finished[j]);
    }
  }

  /** What the client of a finished call on a descriptor has got, when deed n was its call. */
  ghost predicate DescriptorAnswer(deeds: seq<P.Deed<Request>>, servers: seq<Tables>, shms: seq<Bytes>, n: nat,
                                   f: P.Finished<Request>)
  {
    && n < |deeds| < |servers| && |deeds| < |shms| && f.call.request.OnDescriptor?
    && |f.call.input| <= |shms[n]| && f.call.outLen <= |shms[n]| && |f.result.output| == f.call.outLen
    && var r, before := f.call.request, Before(f.call, shms[n]);
       if HasOpen(deeds, servers, shms, n, f.client, r.fd)
       then f.result.reply == r.result
            && forall k :: 0 <= k < f.call.outLen ==> f.result.output[k] == if k < |r.bytes| then r.bytes[k] else before[k]
       else f.result.reply == -9 && f.result.output == before[..f.call.outLen]
            && servers[n + 1] == servers[n] && shms[n + 1] == before
  }

  lemma AnswerIs(deeds: seq<P.Deed<Request>>, servers: seq<Tables>, shms: seq<Bytes>, n: nat, f: P.Finished<Request>)
    requires FromStart(deeds, servers, shms) && n < |deeds|
    requires deeds[n].Served? && deeds[n].call.request.OnDescriptor?
    requires P.Seen(Pfsd(), deeds[n], servers[n], shms[n], shms[n + 1], f)
    ensures DescriptorAnswer(deeds, servers, shms, n, f)
  {
    OnlyOwnersReachDescriptors(deeds, servers, shms, n);
    hide HasOpen, FromStart, AllowedDeeds;
  }

  // ----- the other requests -----

  /** What may reach the library under a client's name, said on the mounts: under the client's first mount that serves
      it, the container and the rest; otherwise nothing under a container that is in use, and the name if it is not. */
  ghost predicate MayReach(ms: seq<Mount>, c: int, name: Bytes, passed: Bytes)
  {
    exists k: nat :: ServedBySlot(ms, c, name, k)
      && if k < |ms| then passed == ms[k].container + name[|ms[k].prefix|..]
         else if exists j :: 0 <= j < |ms| && ms[j].pid != 0 && ms[j].container <= name then passed == []
         else passed == name
  }

  /** mkdir, rename, chstat and the like: the client is told what the library says to names that may all reach it. */
  lemma NamesReachTheLibraryRemapped(t: Tables, shm: Bytes, c: int, names: seq<Bytes>, answer: seq<Bytes> -> int, bytes: Bytes)
    ensures var o := Pfsd().handle(t, shm, c, OnNames(names, answer, bytes));
      && o.server == t && |o.shm| == |shm|
      && (forall k :: 0 <= k < |shm| ==> o.shm[k] == if k < |bytes| then bytes[k] else shm[k])
      && exists passed: seq<Bytes> :: o.replies == [answer(passed)] && |passed| == |names|
           && forall i :: 0 <= i < |names| ==> MayReach(t.mounts, c, names[i], passed[i])
  {
    hide WrittenTo, MayReach, Remapped;
    var passed := AllRemapped(t.mounts, c, names);
    forall i | 0 <= i < |names| ensures MayReach(t.mounts, c, names[i], passed[i]) {
      RemappedMayReach(t.mounts, c, names[i]);
    }
    assert Pfsd().handle(t, shm, c, OnNames(names, answer, bytes)).replies == [answer(passed)];
  }

  lemma RemappedMayReach(ms: seq<Mount>, c: int, name: Bytes)
    ensures MayReach(ms, c, name, Remapped(ms, c, name))
  {
    var k := First(ms, Serving(c, name));
    FirstServes(ms, c, name, k);
    RemappedExactly(ms, c, name, k);
    hide Remapped;
  }

  /** format and read-ahead: the client is told the library's result and finds its bytes in the segment. */
  lemma DirectCallsPassThrough(t: Tables, shm: Bytes, c: int, result: int, bytes: Bytes)
    ensures var o := Pfsd().handle(t, shm, c, Direct(result, bytes));
      && o.server == t && o.replies == [result] && |o.shm| == |shm|
      && forall k :: 0 <= k < |shm| ==> o.shm[k] == if k < |bytes| then bytes[k] else shm[k]
  {
    hide WrittenTo;
  }

  /** GETMOUNTPOINT: the prefix of the client's first mount of the device, as a C string, and 0; without one an empty
      string and -19. Nothing else in the segment changes. */
  lemma MountPointIs(t: Tables, shm: Bytes, c: int, path: Bytes, leftOver: int, device: Bytes)
    requires UpToComma(device, path)
    ensures var o := Pfsd().handle(t, shm, c, GetMountPoint(path, leftOver));
      && o.server == t && |o.shm| == |shm|
      && if exists k :: IsFirstOn(t.mounts, c, device, k)
         then o.replies == [0, leftOver]
              && exists k :: IsFirstOn(t.mounts, c, device, k) && HoldsCString(o.shm, shm, t.mounts[k].prefix)
         else o.replies == [-19, leftOver] && HoldsCString(o.shm, shm, [])
  {
    UpToCommaIs(device, path);
    var k := First(t.mounts, OwnDevice(c, device));
    assert k < |t.mounts| ==> Matches(OwnDevice(c, device), t.mounts[k]);
    assert forall j :: 0 <= j < k ==> !Matches(OwnDevice(c, device), t.mounts[j]);
    hide First, UntilComma, WrittenTo;
    if k < |t.mounts| {
      assert IsFirstOn(t.mounts, c, device, k);
    }
  }

  /** The segment with the string and its NUL at the start, as far as it reaches, and otherwise as it was. */
  predicate HoldsCString(shm: Bytes, before: Bytes, s: Bytes)
    requires |shm| == |before|
  {
    forall i :: 0 <= i < |shm| ==> shm[i] == if i < |s| then s[i] else if i == |s| then 0 else before[i]
  }

  predicate IsFirstOn(ms: seq<Mount>, c: int, device: Bytes, k: int)
  {
    && 0 <= k < |ms| && ms[k].pid == c && ms[k].device == device
    && forall j :: 0 <= j < k ==> !(ms[j].pid == c && ms[j].device == device)
  }
}
