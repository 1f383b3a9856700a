/** The dispatcher of the daemon as the protocol sees it: each request changes the tables by its step and is
    answered on the client's socket. */
module PfsdService {
  import opened ByteStrings
  import opened PfsdTables
  import Runs = PfsdRuns
  import P = PfsdProtocol

  /** The requests of event_handler_func, by what they do. Library answers come with the request: code and bytes
      for the segment, for a call on a descriptor or without one, or depending on the names that reach it. */
  datatype Request =
    | Tabled(ask: Ask)
    | OnDescriptor(fd: int, result: int, bytes: Bytes)                      // lseek, read, write, dread, ioctl
    | OnNames(names: seq<Bytes>, answer: seq<Bytes> -> int, bytes: Bytes)   // chstat, mkdir, rename, devctl, ...
    | Direct(result: int, bytes: Bytes)                                     // format, read-ahead
    | GetMountPoint(path: Bytes, leftOver: int)
    | Unknown

  /** Bytes written to the start of the segment, as far as it reaches. */
  function WrittenTo(shm: Bytes, bytes: Bytes): (r: Bytes)
    ensures |r| == |shm|
    ensures forall k :: 0 <= k < |shm| ==> r[k] == if k < |bytes| then bytes[k] else shm[k]
  {
    if |bytes| <= |shm| then bytes + shm[|bytes|..] else bytes[..|shm|]
  }

  function AllRemapped(ms: seq<Mount>, pid: int, names: seq<Bytes>): (r: seq<Bytes>)
    ensures |r| == |names|
  {
    seq(|names|, i requires 0 <= i < |names| => Remapped(ms, pid, names[i]))
  }

  /** rpc_command_getmountpoint replies, and then event_handler_func writes its own, never assigned, result. */
  function MountPointOf(t: Tables, shm: Bytes, pid: int, path: Bytes, leftOver: int): P.Outcome<Tables>
  {
    var i := First(t.mounts, OwnDevice(pid, UntilComma(path)));
    if i == |t.mounts| then P.Outcome(t, WrittenTo(shm, [NUL]), [-ENODEV, leftOver])
    else P.Outcome(t, WrittenTo(shm, t.mounts[i].prefix + [NUL]), [0, leftOver])
  }

  function Handle(t: Tables, shm: Bytes, pid: int, r: Request): P.Outcome<Tables>
  {
    match r
    case Tabled(ask) => var d := AskStep(t, pid, ask); P.Outcome(d.tables, shm, [d.reply])
    case OnDescriptor(fd, result, bytes) =>
      if Owns(t.files, pid, fd) then P.Outcome(t, WrittenTo(shm, bytes), [result]) else P.Outcome(t, shm, [-EBADF])
    case OnNames(names, answer, bytes) =>
      P.Outcome(t, WrittenTo(shm, bytes), [answer(AllRemapped(t.mounts, pid, names))])
    case Direct(result, bytes) => P.Outcome(t, WrittenTo(shm, bytes), [result])
    case GetMountPoint(path, leftOver) => MountPointOf(t, shm, pid, path, leftOver)
    case Unknown => P.Outcome(t, shm, [])
  }

  function Pfsd(): P.Daemon<Tables, Request>
  {
    P.Daemon((t: Tables, shm: Bytes, pid: int, r: Request) => Handle(t, shm, pid, r),
             (t: Tables, pid: int) => CleanupStep(t, pid))
  }

  // ----- one reply, or not -----

  /** Exactly the known requests other than GETMOUNTPOINT are answered once. */
  lemma AnsweredOnceIff(r: Request)
    ensures P.AnswersOnce(Pfsd(), r) <==> !r.GetMountPoint? && !r.Unknown?
  {
    var t := Tables([], [], {}, map[]);
    assert |Pfsd().handle(t, [], 1, r).replies| == 1 <==> !r.GetMountPoint? && !r.Unknown?;
  }

  /** A client that asks for a mount point gets the left-over number as the answer to its next call, whatever that
      is and whatever it copies in or out, before the daemon has seen the call. */
  lemma MountPointMisleads(t: Tables, shm: Bytes, path: Bytes, leftOver: int, outLen: nat, second: P.Call<Request>)
    returns (actions: seq<P.Action<Request>>)
    requires outLen <= |shm| && |second.input| <= |shm| && second.outLen <= |shm|
    ensures var d, st0, first := Pfsd(), P.Initial<Tables, Request>(t, shm), P.Call(GetMountPoint(path, leftOver), [], outLen);
      && P.Possible(d, st0, actions)
      && var st := P.Run(d, st0, actions);
         && |st.finished| == 2 && st.deeds == [P.Served(1, first)]
         && st.finished[0].call == first && st.finished[1].call == second
         && st.finished[1].client == 1 && st.finished[1].result.reply == leftOver
  {
    actions := P.SecondReplyMisleads(Pfsd(), t, shm, P.Call(GetMountPoint(path, leftOver), [], outLen), second);
  }

  /** For one: the client closes a descriptor that is not its own and is told that this went well. */
  lemma RefusedCloseLooksDone(t: Tables, shm: Bytes, path: Bytes, fd: int) returns (actions: seq<P.Action<Request>>)
    requires !Owns(t.files, 1, fd)
    ensures var d, st0 := Pfsd(), P.Initial<Tables, Request>(t, shm);
      && P.Possible(d, st0, actions)
      && var st := P.Run(d, st0, actions);
         && |st.finished| == 2 && st.finished[1].call.request == Tabled(Close(fd)) && st.finished[1].result.reply == 0
         && d.handle(t, shm, 1, Tabled(Close(fd))).replies == [-EBADF]
  {
    actions := MountPointMisleads(t, shm, path, 0, 0, P.Call(Tabled(Close(fd)), [], 0));
  }

  /** And others suffer: client 1 asks for a mount point, then reads a byte of its file; client 2 asks for nothing
      but a byte of its own file, is told that one byte was read, and has the byte of client 1. */
  lemma AnotherClientReadsForeignByte(t: Tables, shm: Bytes, path: Bytes, fd1: int, x: byte, fd2: int, y: byte)
    returns (actions: seq<P.Action<Request>>)
    requires shm != [] && Owns(t.files, 1, fd1) && Owns(t.files, 2, fd2)
    ensures var d, st0 := Pfsd(), P.Initial<Tables, Request>(t, shm);
      var read := P.Call(OnDescriptor(fd2, 1, [y]), [], 1);
      && P.Possible(d, st0, actions)
      && var st := P.Run(d, st0, actions);
         |st.finished| == 3 && st.finished[2] == P.Finished(2, read, P.Result(1, [x]))
  {
    hide WrittenTo, UntilComma, First;
    var first := P.Call(GetMountPoint(path, 0), [], 0);
    var second, third := P.Call(OnDescriptor(fd1, 1, [x]), [], 1), P.Call(OnDescriptor(fd2, 1, [y]), [], 1);
    AnsweredOnceIff(second.request);
    AnsweredOnceIff(third.request);
    actions := P.AnotherClientIsHarmed(Pfsd(), t, shm, first, second, third);
    FirstByteWritten(shm, x);
  }

  lemma FirstByteWritten(shm: Bytes, x: byte)
    ensures forall s: Bytes :: |s| == |shm| && s != [] ==> WrittenTo(s, [x])[..1] == [x]
  {
  }

  // ----- interleaved runs -----

  /** So for any number of clients and any interleaving without those two, the tables are what the completed calls
      do one after the other, and every client gets its own call's reply and bytes. */
  lemma ClientsSeeAtomicCalls(shm: Bytes, t: Tables, actions: seq<P.Action<Request>>)
    requires P.Possible(Pfsd(), P.Initial<Tables, Request>(t, shm), actions)
    requires forall i :: 0 <= i < |actions| && actions[i].RequireLock? ==>
      !actions[i].call.request.GetMountPoint? && !actions[i].call.request.Unknown?
    ensures var st := P.Run(Pfsd(), P.Initial<Tables, Request>(t, shm), actions);
      var w := P.Replay(Pfsd(), P.World(t, shm, []), st.deeds);
      && st.server == w.server && st.finished <= w.results && |w.results| <= |st.finished| + 1
  {
    forall i | 0 <= i < |actions| ensures P.Honest(Pfsd(), actions[i]) {
      if actions[i].RequireLock? {
        AnsweredOnceIff(actions[i].call.request);
      }
    }
    P.EveryRunIsAtomic(Pfsd(), t, shm, actions);
  }

  /** Sockets are positive numbers, and requests are answered as the library's contract says. */
  ghost predicate Allowed(a: P.Action<Request>)
  {
    match a
    case Connect(c) => c > 0
    case RequireLock(_, call) => call.request.Tabled? ==> FromLibrary(call.request.ask)
    case _ => true
  }

  ghost predicate PhaseAllowed(p: P.Phase<Request>)
  {
    (p.CopyingIn? || p.Waiting?) && p.call.request.Tabled? ==> FromLibrary(p.call.request.ask)
  }

  /** The tables are in order, and what clients have under way may be served. */
  ghost predicate InOrder(st: P.State<Tables, Request>)
  {
    && Runs.TablesInv(st.server)
    && (forall c :: c in st.clients ==> c > 0 && PhaseAllowed(st.clients[c]))
    && (forall c, i :: c in st.requests && 0 <= i < |st.requests[c]| && st.requests[c][i].request.Tabled? ==>
          FromLibrary(st.requests[c][i].request.ask))
    && AllowedDeeds(st.deeds)
  }

  /** What the daemon has done came from proper sockets, and the library has kept to its contract. */
  ghost predicate AllowedDeeds(deeds: seq<P.Deed<Request>>)
  {
    forall i :: 0 <= i < |deeds| ==>
      && deeds[i].client > 0
      && (deeds[i].Served? && deeds[i].call.request.Tabled? ==> FromLibrary(deeds[i].call.request.ask))
  }

  lemma HandleKeeps(t: Tables, shm: Bytes, pid: int, r: Request)
    requires Runs.TablesInv(t) && pid != 0 && (r.Tabled? ==> FromLibrary(r.ask))
    ensures Runs.TablesInv(Handle(t, shm, pid, r).server)
  {
    hide Runs.TablesInv, AskStep;
    if r.Tabled? {
      Runs.AskKeeps(t, pid, r.ask);
    }
  }

  lemma StepKeepsOrder(st: P.State<Tables, Request>, a: P.Action<Request>)
    requires InOrder(st) && P.Enabled(st, a) && Allowed(a)
    ensures InOrder(P.Next(Pfsd(), st, a))
  {
    hide Runs.TablesInv, FromLibrary, Handle, CleanupStep;
    match a {
      case HandleRequest(c) => HandleKeeps(st.server, st.shm, c, st.requests[c][0].request);
      case CleanUp(c) => Runs.CleanupKeeps(st.server, c);
      case _ =>
    }
  }

  /** The tables keep their invariant in every state of every interleaving of any clients, whatever they ask for:
      at each single byte copied, and with GETMOUNTPOINT and unknown requests among the calls. */
  lemma {:induction false} InterleavedRunsKeepTheTables(st: P.State<Tables, Request>, actions: seq<P.Action<Request>>)
    requires InOrder(st) && P.Possible(Pfsd(), st, actions)
    requires forall i :: 0 <= i < |actions| ==> Allowed(actions[i])
    ensures InOrder(P.Run(Pfsd(), st, actions)) && Runs.TablesInv(P.Run(Pfsd(), st, actions).server)
    decreases |actions|
  {
    if actions != [] {
      StepKeepsOrder(st, actions[0]);
      InterleavedRunsKeepTheTables(P.Next(Pfsd(), st, actions[0]), actions[1..]);
    }
  }

  /** So they do from the daemon's start on. */
  lemma TablesStayInOrder(shm: Bytes, actions: seq<P.Action<Request>>)
    requires P.Possible(Pfsd(), P.Initial<Tables, Request>(Runs.Initial().tables, shm), actions)
    requires forall i :: 0 <= i < |actions| ==> Allowed(actions[i])
    ensures Runs.TablesInv(P.Run(Pfsd(), P.Initial<Tables, Request>(Runs.Initial().tables, shm), actions).server)
  {
    Runs.InitialHolds();
    InterleavedRunsKeepTheTables(P.Initial(Runs.Initial().tables, shm), actions);
  }
}
