/** Clients and daemon: a semaphore, one shared memory segment, and a socket per client. Copies in and out of
    the segment are single bytes here, and clients, daemon and disconnects interleave freely. */
module PfsdProtocol {
  import opened ByteStrings

  /** One library call of a client: the request, what it copies to the segment first, and how much it copies
      from the segment afterwards. */
  datatype Call<R> = Call(request: R, input: Bytes, outLen: nat)

  datatype Result = Result(reply: int, output: Bytes)

  /** What the daemon makes of a request: its new state, the segment, and what it writes to the socket. */
  datatype Outcome<S> = Outcome(server: S, shm: Bytes, replies: seq<int>)

  /** The daemon as the clients see it: event_handler_func, and cleanup_client for a client that has gone. */
  datatype Daemon<!S, !R> = Daemon(handle: (S, Bytes, int, R) -> Outcome<S>, drop: (S, int) -> S)

  datatype Phase<R> =
    | Idle
    | CopyingIn(call: Call<R>, k: nat)
    | Waiting(call: Call<R>)
    | CopyingOut(call: Call<R>, reply: int, out: Bytes)
    | Closed

  datatype Finished<R> = Finished(client: int, call: Call<R>, result: Result)

  /** What the daemon has done, in order. */
  datatype Deed<R> = Served(client: int, call: Call<R>) | Dropped(client: int)

  datatype State<S, R> = State(
    server: S,
    shm: Bytes,
    semaphore: nat,
    clients: map<int, Phase<R>>,
    requests: map<int, seq<Call<R>>>, // sent, not yet read; the daemon reads the request of the call only
    replies: map<int, seq<int>>,     // written by the daemon, not yet read
    deeds: seq<Deed<R>>,             // record of the run
    finished: seq<Finished<R>>)      // record of the run

  function Initial<S, R>(server: S, shm: Bytes): State<S, R>
  {
    State(server, shm, 1, map[], map[], map[], [], [])
  }

  datatype Action<R> =
    | Connect(client: int)
    | RequireLock(client: int, call: Call<R>)
    | CopyByteIn(client: int)
    | SendRequest(client: int)
    | HandleRequest(client: int)
    | ReceiveReply(client: int)
    | CopyByteOut(client: int)
    | ReleaseLock(client: int)
    | Close(client: int)
    | CleanUp(client: int)

  predicate In<S, R>(st: State<S, R>, c: int)
  {
    c in st.clients && c in st.requests && c in st.replies
  }

  predicate Enabled<S, R>(st: State<S, R>, a: Action<R>)
  {
    match a
    case Connect(c) => c !in st.clients
    case RequireLock(c, call) =>
      In(st, c) && st.clients[c].Idle? && st.semaphore > 0 && |call.input| <= |st.shm| && call.outLen <= |st.shm|
    case CopyByteIn(c) =>
      In(st, c) && st.clients[c].CopyingIn? && st.clients[c].k < |st.clients[c].call.input| && st.clients[c].k < |st.shm|
    case SendRequest(c) =>
      In(st, c) && st.clients[c].CopyingIn? && st.clients[c].k >= |st.clients[c].call.input|
    case HandleRequest(c) => In(st, c) && st.requests[c] != []
    case ReceiveReply(c) => In(st, c) && st.clients[c].Waiting? && st.replies[c] != []
    case CopyByteOut(c) =>
      In(st, c) && st.clients[c].CopyingOut? && |st.clients[c].out| < st.clients[c].call.outLen
      && |st.clients[c].out| < |st.shm|
    case ReleaseLock(c) =>
      In(st, c) && st.clients[c].CopyingOut? && |st.clients[c].out| >= st.clients[c].call.outLen
    case Close(c) => In(st, c) && st.clients[c].Idle?
    case CleanUp(c) => In(st, c) && st.clients[c].Closed?
  }

  function Next<S, R>(d: Daemon<S, R>, st: State<S, R>, a: Action<R>): State<S, R>
    requires Enabled(st, a)
  {
    var c := a.client;
    match a
    case Connect(_) =>
      st.(clients := st.clients[c := Idle], requests := st.requests[c := []], replies := st.replies[c := []])
    case RequireLock(_, call) => st.(semaphore := st.semaphore - 1, clients := st.clients[c := CopyingIn(call, 0)])
    case CopyByteIn(_) =>
      var p := st.clients[c];
      st.(shm := st.shm[p.k := p.call.input[p.k]], clients := st.clients[c := CopyingIn(p.call, p.k + 1)])
    case SendRequest(_) =>
      var call := st.clients[c].call;
      st.(requests := st.requests[c := st.requests[c] + [call]], clients := st.clients[c := Waiting(call)])
    case HandleRequest(_) =>
      var o := d.handle(st.server, st.shm, c, st.requests[c][0].request);
      st.(server := o.server, shm := o.shm, requests := st.requests[c := st.requests[c][1..]],
          replies := st.replies[c := st.replies[c] + o.replies], deeds := st.deeds + [Served(c, st.requests[c][0])])
    case ReceiveReply(_) =>
      st.(replies := st.replies[c := st.replies[c][1..]],
          clients := st.clients[c := CopyingOut(st.clients[c].call, st.replies[c][0], [])])
    case CopyByteOut(_) =>
      var p := st.clients[c];
      st.(clients := st.clients[c := CopyingOut(p.call, p.reply, p.out + [st.shm[|p.out|]])])
    case ReleaseLock(_) =>
      var p := st.clients[c];
      st.(semaphore := st.semaphore + 1, clients := st.clients[c := Idle],
          finished := st.finished + [Finished(c, p.call, Result(p.reply, p.out))])
    case Close(_) => st.(clients := st.clients[c := Closed])
    case CleanUp(_) =>
      st.(server := d.drop(st.server, c), clients := st.clients - {c}, requests := st.requests - {c},
          replies := st.replies - {c}, deeds := st.deeds + [Dropped(c)])
  }

  // ----- the same deeds, one call at a time -----

  /** The daemon and the segment with nobody in between, and the results of the calls so far. */
  datatype World<S, R> = World(server: S, shm: Bytes, results: seq<Finished<R>>)

  /** The segment with the input at its start. */
  function Loaded(shm: Bytes, input: Bytes): (r: Bytes)
    requires |input| <= |shm|
    ensures |r| == |shm|
    ensures forall k :: 0 <= k < |shm| ==> r[k] == if k < |input| then input[k] else shm[k]
  {
    input + shm[|input|..]
  }

  /** One deed without interruption: copy in, handle, copy out. */
  function Atomically<S, R>(d: Daemon<S, R>, w: World<S, R>, deed: Deed<R>): World<S, R>
  {
    match deed
    case Dropped(c) => w.(server := d.drop(w.server, c))
    case Served(c, call) =>
      var shm := if |call.input| <= |w.shm| then Loaded(w.shm, call.input) else w.shm;
      var o := d.handle(w.server, shm, c, call.request);
      var reply := if o.replies == [] then 0 else o.replies[0];
      var output := if call.outLen <= |o.shm| then o.shm[..call.outLen] else o.shm;
      World(o.server, o.shm, w.results + [Finished(c, call, Result(reply, output))])
  }

  function Replay<S, R>(d: Daemon<S, R>, w: World<S, R>, deeds: seq<Deed<R>>): World<S, R>
  {
    if deeds == [] then w else Atomically(d, Replay(d, w, deeds[..|deeds| - 1]), deeds[|deeds| - 1])
  }

  lemma ReplayOneMore<S, R>(d: Daemon<S, R>, w: World<S, R>, deeds: seq<Deed<R>>, deed: Deed<R>)
    ensures Replay(d, w, deeds + [deed]) == Atomically(d, Replay(d, w, deeds), deed)
  {
    assert (deeds + [deed])[..|deeds|] == deeds;
  }

  // ----- every interleaving is one of atomic calls -----

  /** The daemon keeps the size of the segment and answers this request with exactly one reply. */
  ghost predicate AnswersOnce<S(!new), R>(d: Daemon<S, R>, request: R)
  {
    forall s: S, shm: Bytes, c: int ::
      var o := d.handle(s, shm, c, request); |o.replies| == 1 && |o.shm| == |shm|
  }

  predicate InCall<R>(p: Phase<R>) { p.CopyingIn? || p.Waiting? || p.CopyingOut? }

  /** The client that holds the semaphore, if any. */
  datatype Holder = Nobody | Client(id: int)

  /** Only the holder is in a call, and no other client has anything in its socket. */
  ghost predicate OneAtATime<S, R>(st: State<S, R>, h: Holder)
  {
    && st.semaphore == (if h.Nobody? then 1 else 0)
    && (forall c :: c in st.clients ==> In(st, c))
    && (forall c :: c in st.clients ==> (InCall(st.clients[c]) <==> h == Client(c)))
    && (forall c :: c in st.clients && h != Client(c) ==> st.requests[c] == [] && st.replies[c] == [])
    && (h.Client? ==> h.id in st.clients)
  }

  /** How far the call in progress is, against the atomic replay w of all deeds so far. */
  ghost predicate Agrees<S(!new), R>(d: Daemon<S, R>, st: State<S, R>, h: Holder, w: World<S, R>)
    requires OneAtATime(st, h)
  {
    && st.server == w.server && |st.shm| == |w.shm|
    && if h.Nobody? then st.shm == w.shm && st.finished == w.results
       else
         var c := h.id;
         match st.clients[c]
         case CopyingIn(call, k) =>
           && st.requests[c] == [] && st.replies[c] == [] && st.finished == w.results
           && AnswersOnce(d, call.request) && k <= |call.input| <= |st.shm| && call.outLen <= |st.shm|
           && st.shm == Loaded(w.shm, call.input[..k])
         case Waiting(call) =>
           && AnswersOnce(d, call.request) && |call.input| <= |st.shm| && call.outLen <= |st.shm|
           && if st.requests[c] != [] then
                && st.requests[c] == [call] && st.replies[c] == [] && st.finished == w.results
                && st.shm == Loaded(w.shm, call.input)
              else
                && |st.replies[c]| == 1 && st.shm == w.shm
                && w.results == st.finished + [Finished(c, call, Result(st.replies[c][0], st.shm[..call.outLen]))]
         case CopyingOut(call, reply, out) =>
           && st.requests[c] == [] && st.replies[c] == [] && st.shm == w.shm
           && |out| <= call.outLen <= |st.shm| && out == st.shm[..|out|]
           && w.results == st.finished + [Finished(c, call, Result(reply, st.shm[..call.outLen]))]
         case _ => false
  }

  ghost predicate Inv<S(!new), R>(d: Daemon<S, R>, w0: World<S, R>, st: State<S, R>, h: Holder)
  {
    OneAtATime(st, h) && Agrees(d, st, h, Replay(d, w0, st.deeds))
  }

  function HolderAfter<R>(h: Holder, a: Action<R>): Holder
  {
    match a
    case RequireLock(c, _) => Client(c)
    case ReleaseLock(_) => Nobody
    case _ => h
  }

  ghost predicate Honest<S(!new), R>(d: Daemon<S, R>, a: Action<R>)
  {
    a.RequireLock? ==> AnswersOnce(d, a.call.request)
  }

  lemma StepKeepsOneAtATime<S(!new), R>(d: Daemon<S, R>, w0: World<S, R>, st: State<S, R>, h: Holder, a: Action<R>)
    requires Inv(d, w0, st, h) && Enabled(st, a) && Honest(d, a)
    ensures OneAtATime(Next(d, st, a), HolderAfter(h, a))
  {
    hide Replay;
  }

  lemma WayInAgrees<S(!new), R>(d: Daemon<S, R>, w0: World<S, R>, st: State<S, R>, h: Holder, a: Action<R>)
    requires Inv(d, w0, st, h) && Enabled(st, a) && Honest(d, a)
    requires OneAtATime(Next(d, st, a), HolderAfter(h, a))
    requires a.RequireLock? || a.CopyByteIn? || a.SendRequest?
    ensures Agrees(d, Next(d, st, a), HolderAfter(h, a), Replay(d, w0, Next(d, st, a).deeds))
  {
    hide Replay;
    var w := Replay(d, w0, st.deeds);
    match a {
      case RequireLock(c, call) => assert Loaded(w.shm, call.input[..0]) == w.shm;
      case CopyByteIn(c) =>
        var p := st.clients[c];
        OneByteMore(w.shm, p.call.input, p.k);
      case SendRequest(c) =>
        var call := st.clients[c].call;
        assert call.input[..|call.input|] == call.input;
    }
  }

  lemma OneByteMore(shm: Bytes, input: Bytes, k: nat)
    requires k < |input| <= |shm|
    ensures Loaded(shm, input[..k])[k := input[k]] == Loaded(shm, input[..k + 1])
  {
  }

  lemma WayOutAgrees<S(!new), R>(d: Daemon<S, R>, w0: World<S, R>, st: State<S, R>, h: Holder, a: Action<R>)
    requires Inv(d, w0, st, h) && Enabled(st, a) && Honest(d, a)
    requires OneAtATime(Next(d, st, a), HolderAfter(h, a))
    requires a.ReceiveReply? || a.CopyByteOut? || a.ReleaseLock?
    ensures Agrees(d, Next(d, st, a), HolderAfter(h, a), Replay(d, w0, Next(d, st, a).deeds))
  {
    hide Replay;
    match a {
      case ReceiveReply(c) => assert st.shm[..0] == [];
      case CopyByteOut(c) =>
        var p := st.clients[c];
        assert p.out + [st.shm[|p.out|]] == st.shm[..|p.out| + 1];
      case ReleaseLock(c) =>
    }
  }

  lemma OthersAgree<S(!new), R>(d: Daemon<S, R>, w0: World<S, R>, st: State<S, R>, h: Holder, a: Action<R>)
    requires Inv(d, w0, st, h) && Enabled(st, a) && Honest(d, a)
    requires OneAtATime(Next(d, st, a), HolderAfter(h, a))
    requires a.Connect? || a.Close? || a.CleanUp?
    ensures Agrees(d, Next(d, st, a), HolderAfter(h, a), Replay(d, w0, Next(d, st, a).deeds))
  {
    hide Replay;
    if a.CleanUp? {
      ReplayOneMore(d, w0, st.deeds, Dropped(a.client));
    }
  }

  lemma HandleAgrees<S(!new), R>(d: Daemon<S, R>, w0: World<S, R>, st: State<S, R>, h: Holder, a: Action<R>)
    requires Inv(d, w0, st, h) && Enabled(st, a) && Honest(d, a)
    requires OneAtATime(Next(d, st, a), HolderAfter(h, a))
    requires a.HandleRequest?
    ensures Agrees(d, Next(d, st, a), HolderAfter(h, a), Replay(d, w0, Next(d, st, a).deeds))
  {
    hide Replay;
    var c := a.client;
    assert h == Client(c) && st.clients[c].Waiting?;
    var call := st.clients[c].call;
    ReplayOneMore(d, w0, st.deeds, Served(c, call));
  }

  lemma StepAgrees<S(!new), R>(d: Daemon<S, R>, w0: World<S, R>, st: State<S, R>, h: Holder, a: Action<R>)
    requires Inv(d, w0, st, h) && Enabled(st, a) && Honest(d, a)
    requires OneAtATime(Next(d, st, a), HolderAfter(h, a))
    ensures Agrees(d, Next(d, st, a), HolderAfter(h, a), Replay(d, w0, Next(d, st, a).deeds))
  {
    hide Inv, Agrees, OneAtATime, Replay;
    match a {
      case Connect(_) => OthersAgree(d, w0, st, h, a);
      case RequireLock(_, _) => WayInAgrees(d, w0, st, h, a);
      case CopyByteIn(_) => WayInAgrees(d, w0, st, h, a);
      case SendRequest(_) => WayInAgrees(d, w0, st, h, a);
      case HandleRequest(_) => HandleAgrees(d, w0, st, h, a);
      case ReceiveReply(_) => WayOutAgrees(d, w0, st, h, a);
      case CopyByteOut(_) => WayOutAgrees(d, w0, st, h, a);
      case ReleaseLock(_) => WayOutAgrees(d, w0, st, h, a);
      case Close(_) => OthersAgree(d, w0, st, h, a);
      case CleanUp(_) => OthersAgree(d, w0, st, h, a);
    }
  }

  // ----- runs -----

  ghost predicate Possible<S, R>(d: Daemon<S, R>, st: State<S, R>, actions: seq<Action<R>>)
    decreases |actions|
  {
    actions == [] || (Enabled(st, actions[0]) && Possible(d, Next(d, st, actions[0]), actions[1..]))
  }

  ghost function Run<S, R>(d: Daemon<S, R>, st: State<S, R>, actions: seq<Action<R>>): State<S, R>
    requires Possible(d, st, actions)
    decreases |actions|
  {
    if actions == [] then st else Run(d, Next(d, st, actions[0]), actions[1..])
  }

  ghost predicate AllHonest<S(!new), R>(d: Daemon<S, R>, actions: seq<Action<R>>)
  {
    forall i :: 0 <= i < |actions| ==> Honest(d, actions[i])
  }

  lemma {:induction false} RunKeepsInv<S(!new), R>(d: Daemon<S, R>, w0: World<S, R>, st: State<S, R>, h: Holder,
                                                    actions: seq<Action<R>>) returns (h': Holder)
    requires Inv(d, w0, st, h) && Possible(d, st, actions) && AllHonest(d, actions)
    ensures Inv(d, w0, Run(d, st, actions), h')
    decreases |actions|
  {
    if actions == [] {
      return h;
    }
    StepKeepsOneAtATime(d, w0, st, h, actions[0]);
    StepAgrees(d, w0, st, h, actions[0]);
    InvIs(d, w0, Next(d, st, actions[0]), HolderAfter(h, actions[0]));
    hide Next, Inv, Honest;
    h' := RunKeepsInv(d, w0, Next(d, st, actions[0]), HolderAfter(h, actions[0]), actions[1..]);
  }

  lemma InvIs<S(!new), R>(d: Daemon<S, R>, w0: World<S, R>, st: State<S, R>, h: Holder)
    requires OneAtATime(st, h) && Agrees(d, st, h, Replay(d, w0, st.deeds))
    ensures Inv(d, w0, st, h)
  {
  }

  /** Whatever the interleaving, as long as every request is answered once: at most one client is inside a call;
      the calls that have returned are, in the order in which they returned, the calls of the atomic replay of
      what the daemon did, with the same replies and bytes; and the replay is ahead by at most the one call that
      is still in progress. */
  lemma EveryRunIsAtomic<S(!new), R>(d: Daemon<S, R>, server: S, shm: Bytes, actions: seq<Action<R>>)
    requires Possible(d, Initial<S, R>(server, shm), actions) && AllHonest(d, actions)
    ensures var st := Run(d, Initial<S, R>(server, shm), actions);
      var w := Replay(d, World(server, shm, []), st.deeds);
      && (forall a, b :: a in st.clients && b in st.clients && InCall(st.clients[a]) && InCall(st.clients[b]) ==> a == b)
      && st.finished <= w.results && |w.results| <= |st.finished| + 1
      && st.server == w.server
      && ((forall c :: c in st.clients ==> !InCall(st.clients[c])) ==> st.finished == w.results && st.shm == w.shm)
  {
    var st0 := Initial<S, R>(server, shm);
    var w0: World<S, R> := World(server, shm, []);
    assert Replay(d, w0, []) == w0;
    assert Inv(d, w0, st0, Nobody);
    var h := RunKeepsInv(d, w0, st0, Nobody, actions);
    hide Replay, Run;
  }

  // ----- what finished calls have seen -----

  /** Calls that fit the segment and requests that are answered once. */
  ghost predicate DeedsFit<S(!new), R>(d: Daemon<S, R>, deeds: seq<Deed<R>>, n: nat)
  {
    forall i :: 0 <= i < |deeds| && deeds[i].Served? ==>
      |deeds[i].call.input| <= n && deeds[i].call.outLen <= n && AnswersOnce(d, deeds[i].call.request)
  }

  lemma {:induction false} ReplayKeepsSize<S(!new), R>(d: Daemon<S, R>, w: World<S, R>, deeds: seq<Deed<R>>)
    requires DeedsFit(d, deeds, |w.shm|)
    ensures |Replay(d, w, deeds).shm| == |w.shm|
  {
    if deeds != [] {
      ReplayKeepsSize(d, w, deeds[..|deeds| - 1]);
      LastDeedKeepsSize(d, Replay(d, w, deeds[..|deeds| - 1]), deeds[|deeds| - 1]);
    }
  }

  lemma LastDeedKeepsSize<S(!new), R>(d: Daemon<S, R>, w: World<S, R>, deed: Deed<R>)
    requires deed.Served? ==> |deed.call.input| <= |w.shm| && AnswersOnce(d, deed.call.request)
    ensures |Atomically(d, w, deed).shm| == |w.shm|
  {
  }

  lemma StepKeepsFit<S(!new), R>(d: Daemon<S, R>, w0: World<S, R>, st: State<S, R>, h: Holder, a: Action<R>)
    requires Inv(d, w0, st, h) && Enabled(st, a) && DeedsFit(d, st.deeds, |w0.shm|)
    ensures DeedsFit(d, Next(d, st, a).deeds, |w0.shm|)
  {
    ReplayKeepsSize(d, w0, st.deeds);
    hide Replay;
    if a.HandleRequest? {
      var c := a.client;
      assert h == Client(c) && st.clients[c].Waiting?;
      assert st.requests[c][0] == st.clients[c].call;
    }
  }

  lemma {:induction false} RunKeepsFit<S(!new), R>(d: Daemon<S, R>, w0: World<S, R>, st: State<S, R>, h: Holder,
                                                    actions: seq<Action<R>>)
    requires Inv(d, w0, st, h) && Possible(d, st, actions) && AllHonest(d, actions) && DeedsFit(d, st.deeds, |w0.shm|)
    ensures DeedsFit(d, Run(d, st, actions).deeds, |w0.shm|)
    decreases |actions|
  {
    if actions != [] {
      StepKeepsOneAtATime(d, w0, st, h, actions[0]);
      StepAgrees(d, w0, st, h, actions[0]);
      InvIs(d, w0, Next(d, st, actions[0]), HolderAfter(h, actions[0]));
      StepKeepsFit(d, w0, st, h, actions[0]);
      hide Next, Inv, Honest, DeedsFit;
      RunKeepsFit(d, w0, Next(d, st, actions[0]), HolderAfter(h, actions[0]), actions[1..]);
    }
  }

  /** The daemon and the segment before and after each deed: a request finds the segment with its call's input at
      the start, and is answered once. */
  ghost predicate Trace<S, R>(d: Daemon<S, R>, deeds: seq<Deed<R>>, servers: seq<S>, shms: seq<Bytes>)
  {
    && |servers| == |shms| == |deeds| + 1
    && forall i :: 0 <= i < |deeds| ==> Done(d, deeds[i], servers[i], shms[i], servers[i + 1], shms[i + 1])
  }

  ghost predicate Done<S, R>(d: Daemon<S, R>, deed: Deed<R>, server: S, shm: Bytes, server': S, shm': Bytes)
  {
    match deed
    case Dropped(c) => server' == d.drop(server, c) && shm' == shm
    case Served(c, call) =>
      && |call.input| <= |shm| == |shm'| && call.outLen <= |shm|
      && var o := d.handle(server, call.input + shm[|call.input|..], c, call.request);
         server' == o.server && shm' == o.shm && |o.replies| == 1
  }

  /** The call of deed i, as its client has seen it: the daemon's reply, and the start of the segment that the
      daemon has left. */
  ghost predicate Seen<S, R>(d: Daemon<S, R>, deed: Deed<R>, server: S, shm: Bytes, shm': Bytes, f: Finished<R>)
  {
    && deed == Served(f.client, f.call) && |f.call.input| <= |shm| && f.call.outLen <= |shm'|
    && d.handle(server, f.call.input + shm[|f.call.input|..], f.client, f.call.request).replies == [f.result.reply]
    && f.result.output == shm'[..f.call.outLen]
  }

  /** The deeds that the results belong to, one for one and in order. */
  ghost predicate Match<S, R>(d: Daemon<S, R>, deeds: seq<Deed<R>>, servers: seq<S>, shms: seq<Bytes>, at: seq<nat>,
                              results: seq<Finished<R>>)
    requires Trace(d, deeds, servers, shms)
  {
    && |results| <= |at|
    && (forall j, k :: 0 <= j < k < |at| ==> at[j] < at[k])
    && (forall j :: 0 <= j < |at| ==> at[j] < |deeds| && deeds[at[j]].Served?)
    && (forall i :: 0 <= i < |deeds| && deeds[i].Served? ==> i in at)
    && (forall j :: 0 <= j < |results| ==> Seen(d, deeds[at[j]], servers[at[j]], shms[at[j]], shms[at[j] + 1], results[j]))
  }

  lemma {:induction false} ReplayIsATrace<S(!new), R>(d: Daemon<S, R>, w0: World<S, R>, deeds: seq<Deed<R>>)
    returns (servers: seq<S>, shms: seq<Bytes>, at: seq<nat>)
    requires DeedsFit(d, deeds, |w0.shm|) && w0.results == []
    ensures Trace(d, deeds, servers, shms)
    ensures var w := Replay(d, w0, deeds);
      && servers[0] == w0.server && shms[0] == w0.shm && servers[|deeds|] == w.server && shms[|deeds|] == w.shm
      && |at| == |w.results| && Match(d, deeds, servers, shms, at, w.results)
  {
    if deeds == [] {
      return [w0.server], [w0.shm], [];
    }
    var n := |deeds| - 1;
    var front, deed := deeds[..n], deeds[n];
    var w, w' := Replay(d, w0, front), Replay(d, w0, deeds);
    var ss, ms, ks := ReplayIsATrace(d, w0, front);
    ReplayKeepsSize(d, w0, front);
    LastDeedIsDone(d, w, deed);
    hide Replay, AnswersOnce, Done, Seen, Atomically, Trace, Match, DeedsFit;
    assert front + [deed] == deeds;
    TraceSnoc(d, front, deed, ss, ms, w'.server, w'.shm);
    servers, shms := ss + [w'.server], ms + [w'.shm];
    if deed.Served? {
      at := ks + [n];
      assert w'.results == w.results + [w'.results[|w.results|]];
      MatchSnoc(d, front, deed, ss, ms, w'.server, w'.shm, ks, w.results, w'.results[|w.results|]);
    } else {
      at := ks;
      MatchMore(d, front, deed, ss, ms, w'.server, w'.shm, ks, w.results);
    }
  }

  lemma TraceSnoc<S, R>(d: Daemon<S, R>, deeds: seq<Deed<R>>, deed: Deed<R>, servers: seq<S>, shms: seq<Bytes>, server: S, shm: Bytes)
    requires Trace(d, deeds, servers, shms) && Done(d, deed, servers[|deeds|], shms[|deeds|], server, shm)
    ensures Trace(d, deeds + [deed], servers + [server], shms + [shm])
  {
    hide Done;
  }

  lemma MatchMore<S, R>(d: Daemon<S, R>, deeds: seq<Deed<R>>, deed: Deed<R>, servers: seq<S>, shms: seq<Bytes>,
                        server: S, shm: Bytes, at: seq<nat>, results: seq<Finished<R>>)
    requires Trace(d, deeds, servers, shms) && Trace(d, deeds + [deed], servers + [server], shms + [shm])
    requires Match(d, deeds, servers, shms, at, results) && !deed.Served?
    ensures Match(d, deeds + [deed], servers + [server], shms + [shm], at, results)
  {
    hide Done, Seen;
  }

  lemma MatchSnoc<S, R>(d: Daemon<S, R>, deeds: seq<Deed<R>>, deed: Deed<R>, servers: seq<S>, shms: seq<Bytes>,
                        server: S, shm: Bytes, at: seq<nat>, results: seq<Finished<R>>, f: Finished<R>)
    requires Trace(d, deeds, servers, shms) && Trace(d, deeds + [deed], servers + [server], shms + [shm])
    requires Match(d, deeds, servers, shms, at, results) && |at| == |results| && deed.Served?
    requires Seen(d, deed, servers[|deeds|], shms[|deeds|], shm, f)
    ensures Match(d, deeds + [deed], servers + [server], shms + [shm], at + [|deeds|], results + [f])
  {
    hide Done, Seen;
    var n := |deeds|;
    var all: seq<nat> := at + [n];
    forall i | 0 <= i < n + 1 && (deeds + [deed])[i].Served? ensures i in all {
      if i < n {
        assert deeds[i].Served?;
        assert i in at;
      } else {
        assert all[|at|] == n;
      }
    }
  }

  lemma LastDeedIsDone<S(!new), R>(d: Daemon<S, R>, w: World<S, R>, deed: Deed<R>)
    requires deed.Served? ==> |deed.call.input| <= |w.shm| && deed.call.outLen <= |w.shm| && AnswersOnce(d, deed.call.request)
    ensures var w' := Atomically(d, w, deed);
      && Done(d, deed, w.server, w.shm, w'.server, w'.shm)
      && (deed.Served? ==> |w'.results| == |w.results| + 1 && w.results <= w'.results
                           && Seen(d, deed, w.server, w.shm, w'.shm, w'.results[|w.results|]))
      && (deed.Dropped? ==> w'.results == w.results)
  {
  }

  /** Whatever the interleaving: what the daemon has done is a trace, each request handled in the state that the deeds
      before it have left and on the segment with the call's own input; and each finished call has the reply and the
      bytes of its own deed. */
  lemma EveryRunIsATrace<S(!new), R>(d: Daemon<S, R>, server: S, shm: Bytes, actions: seq<Action<R>>)
    returns (servers: seq<S>, shms: seq<Bytes>, at: seq<nat>)
    requires Possible(d, Initial<S, R>(server, shm), actions) && AllHonest(d, actions)
    ensures var st := Run(d, Initial<S, R>(server, shm), actions);
      && Trace(d, st.deeds, servers, shms) && servers[0] == server && shms[0] == shm
      && servers[|st.deeds|] == st.server && |at| <= |st.finished| + 1
      && Match(d, st.deeds, servers, shms, at, st.finished)
  {
    var st0 := Initial<S, R>(server, shm);
    var w0: World<S, R> := World(server, shm, []);
    assert Replay(d, w0, []) == w0;
    assert Inv(d, w0, st0, Nobody);
    EveryRunIsAtomic(d, server, shm, actions);
    RunKeepsFit(d, w0, st0, Nobody, actions);
    hide Possible, Run, Replay, AllHonest, DeedsFit, Inv, Trace, Seen;
    var st := Run(d, st0, actions);
    servers, shms, at := ReplayIsATrace(d, w0, st.deeds);
  }

  /** A call in progress is never stuck: its client, or the daemon on its behalf, has a next action. */
  lemma CallsGoOn<S(!new), R>(d: Daemon<S, R>, w0: World<S, R>, st: State<S, R>, c: int)
    requires Inv(d, w0, st, Client(c))
    ensures Enabled(st, CopyByteIn(c)) || Enabled(st, SendRequest(c)) || Enabled(st, HandleRequest(c))
      || Enabled(st, ReceiveReply(c)) || Enabled(st, CopyByteOut(c)) || Enabled(st, ReleaseLock(c))
  {
    hide Replay;
  }

  // ----- a request with two replies -----

  lemma {:induction false} RunSnoc<S, R>(d: Daemon<S, R>, st: State<S, R>, actions: seq<Action<R>>, a: Action<R>)
    requires Possible(d, st, actions) && Enabled(Run(d, st, actions), a)
    ensures Possible(d, st, actions + [a]) && Run(d, st, actions + [a]) == Next(d, Run(d, st, actions), a)
    decreases |actions|
  {
    hide Next, Enabled;
    if actions == [] {
      assert [] + [a] == [a] && [a][1..] == [];
    } else {
      assert (actions + [a])[1..] == actions[1..] + [a];
      RunSnoc(d, Next(d, st, actions[0]), actions[1..], a);
    }
  }

  /** The client copies the rest of its input to the segment. */
  lemma CopiesIn<S, R>(d: Daemon<S, R>, st0: State<S, R>, before: seq<Action<R>>, c: int, call: Call<R>, k: nat)
    returns (actions: seq<Action<R>>)
    requires Possible(d, st0, before)
    requires var st := Run(d, st0, before);
      In(st, c) && st.clients[c] == CopyingIn(call, k) && k <= |call.input| <= |st.shm|
    ensures Possible(d, st0, actions)
    ensures var st := Run(d, st0, before);
      Run(d, st0, actions) == st.(shm := st.shm[..k] + call.input[k..] + st.shm[|call.input|..],
                                  clients := st.clients[c := CopyingIn(call, |call.input|)])
    decreases |call.input| - k
  {
    hide Possible, Run;
    var st := Run(d, st0, before);
    if k == |call.input| {
      actions := before;
      assert st.shm[..k] + call.input[k..] + st.shm[k..] == st.shm;
      assert st.clients[c := CopyingIn(call, k)] == st.clients;
    } else {
      RunSnoc(d, st0, before, CopyByteIn(c));
      actions := CopiesIn(d, st0, before + [CopyByteIn(c)], c, call, k + 1);
      OneByteOfRest(st.shm, call.input, k);
      assert st.clients[c := CopyingIn(call, k + 1)][c := CopyingIn(call, |call.input|)]
          == st.clients[c := CopyingIn(call, |call.input|)];
    }
  }

  lemma OneByteOfRest(shm: Bytes, input: Bytes, k: nat)
    requires k < |input| <= |shm|
    ensures var next := shm[k := input[k]];
      next[..k + 1] + input[k + 1..] + next[|input|..] == shm[..k] + input[k..] + shm[|input|..]
  {
  }

  /** An idle client begins a call: the input is in the segment, the request in the socket. */
  function CallSent<S, R>(st: State<S, R>, c: int, call: Call<R>): State<S, R>
    requires In(st, c) && st.semaphore > 0 && |call.input| <= |st.shm|
  {
    st.(semaphore := st.semaphore - 1, shm := Loaded(st.shm, call.input), clients := st.clients[c := Waiting(call)],
        requests := st.requests[c := st.requests[c] + [call]])
  }

  lemma SendsCall<S, R>(d: Daemon<S, R>, st0: State<S, R>, before: seq<Action<R>>, c: int, call: Call<R>)
    returns (actions: seq<Action<R>>)
    requires Possible(d, st0, before) && Enabled(Run(d, st0, before), RequireLock(c, call))
    ensures Possible(d, st0, actions) && Run(d, st0, actions) == CallSent(Run(d, st0, before), c, call)
  {
    hide Possible, Run;
    var st := Run(d, st0, before);
    RunSnoc(d, st0, before, RequireLock(c, call));
    actions := CopiesIn(d, st0, before + [RequireLock(c, call)], c, call, 0);
    assert st.shm[..0] + call.input[0..] + st.shm[|call.input|..] == Loaded(st.shm, call.input);
    RunSnoc(d, st0, actions, SendRequest(c));
    actions := actions + [SendRequest(c)];
    assert st.clients[c := CopyingIn(call, 0)][c := CopyingIn(call, |call.input|)][c := Waiting(call)]
        == st.clients[c := Waiting(call)];
  }

  /** The client copies the rest of its output from the segment. */
  lemma CopiesOut<S, R>(d: Daemon<S, R>, st0: State<S, R>, before: seq<Action<R>>, c: int, call: Call<R>, reply: int, k: nat)
    returns (actions: seq<Action<R>>)
    requires Possible(d, st0, before)
    requires var st := Run(d, st0, before);
      k <= call.outLen <= |st.shm| && In(st, c) && st.clients[c] == CopyingOut(call, reply, st.shm[..k])
    ensures Possible(d, st0, actions)
    ensures var st := Run(d, st0, before);
      Run(d, st0, actions) == st.(clients := st.clients[c := CopyingOut(call, reply, st.shm[..call.outLen])])
    decreases call.outLen - k
  {
    hide Possible, Run;
    var st := Run(d, st0, before);
    if k == call.outLen {
      actions := before;
      assert st.clients[c := st.clients[c]] == st.clients;
    } else {
      RunSnoc(d, st0, before, CopyByteOut(c));
      assert st.shm[..k] + [st.shm[k]] == st.shm[..k + 1];
      actions := CopiesOut(d, st0, before + [CopyByteOut(c)], c, call, reply, k + 1);
      assert st.clients[c := CopyingOut(call, reply, st.shm[..k + 1])][c := CopyingOut(call, reply, st.shm[..call.outLen])]
          == st.clients[c := CopyingOut(call, reply, st.shm[..call.outLen])];
    }
  }

  /** A client that has its reply ends the call: it takes its output from the segment as it is now. */
  function CallDone<S, R>(st: State<S, R>, c: int, call: Call<R>, reply: int): State<S, R>
    requires call.outLen <= |st.shm|
  {
    st.(semaphore := st.semaphore + 1, clients := st.clients[c := Idle],
        finished := st.finished + [Finished(c, call, Result(reply, st.shm[..call.outLen]))])
  }

  lemma EndsCall<S, R>(d: Daemon<S, R>, st0: State<S, R>, before: seq<Action<R>>, c: int, call: Call<R>, reply: int)
    returns (actions: seq<Action<R>>)
    requires Possible(d, st0, before)
    requires var st := Run(d, st0, before);
      In(st, c) && st.clients[c] == CopyingOut(call, reply, []) && call.outLen <= |st.shm|
    ensures Possible(d, st0, actions) && Run(d, st0, actions) == CallDone(Run(d, st0, before), c, call, reply)
  {
    hide Possible, Run;
    var st := Run(d, st0, before);
    assert st.shm[..0] == [];
    actions := CopiesOut(d, st0, before, c, call, reply, 0);
    RunSnoc(d, st0, actions, ReleaseLock(c));
    actions := actions + [ReleaseLock(c)];
    assert st.clients[c := CopyingOut(call, reply, st.shm[..call.outLen])][c := Idle] == st.clients[c := Idle];
  }

  /** Client 1 after a call that was answered twice: the second reply is still in its socket. */
  function Misled<S, R>(o: Outcome<S>, first: Call<R>): State<S, R>
    requires |o.replies| == 2 && first.outLen <= |o.shm|
  {
    State(o.server, o.shm, 1, map[1 := Idle], map[1 := []], map[1 := o.replies[1..]], [Served(1, first)],
          [Finished(1, first, Result(o.replies[0], o.shm[..first.outLen]))])
  }

  /** What the daemon makes of a client's first call. */
  function OutcomeOf<S, R>(d: Daemon<S, R>, server: S, shm: Bytes, call: Call<R>): Outcome<S>
    requires |call.input| <= |shm|
  {
    d.handle(server, Loaded(shm, call.input), 1, call.request)
  }

  lemma FirstCallIsServed<S, R>(d: Daemon<S, R>, server: S, shm: Bytes, first: Call<R>) returns (actions: seq<Action<R>>)
    requires |first.input| <= |shm| && first.outLen <= |shm|
    ensures var st0, o := Initial<S, R>(server, shm), OutcomeOf(d, server, shm, first);
      && Possible(d, st0, actions)
      && Run(d, st0, actions) == State(o.server, o.shm, 0, map[1 := Waiting(first)], map[1 := []], map[1 := o.replies],
                                       [Served(1, first)], [])
  {
    hide Loaded;
    var st0, o := Initial<S, R>(server, shm), OutcomeOf(d, server, shm, first);
    assert Possible(d, st0, []) && Run(d, st0, []) == st0;
    hide Possible, Run;
    RunSnoc(d, st0, [], Connect(1));
    actions := SendsCall(d, st0, [] + [Connect(1)], 1, first);
    var sent := Run(d, st0, actions);
    assert sent.requests[1] == [first] && sent.replies[1] == [];
    RunSnoc(d, st0, actions, HandleRequest(1));
    actions := actions + [HandleRequest(1)];
    var st := Run(d, st0, actions);
    assert st.replies[1] == o.replies && st.requests[1] == [] && st.deeds == [Served(1, first)];
    assert st.clients == map[1 := Waiting(first)] && st.requests == map[1 := []] && st.replies == map[1 := o.replies];
  }

  lemma FirstCallLeavesAReply<S, R>(d: Daemon<S, R>, server: S, shm: Bytes, first: Call<R>)
    returns (actions: seq<Action<R>>)
    requires |first.input| <= |shm| && first.outLen <= |shm|
    requires var o := OutcomeOf(d, server, shm, first); |o.replies| == 2 && |o.shm| == |shm|
    ensures var st0 := Initial<S, R>(server, shm);
      Possible(d, st0, actions) && Run(d, st0, actions) == Misled(OutcomeOf(d, server, shm, first), first)
  {
    hide Loaded, Possible, Run, OutcomeOf;
    var st0, o := Initial<S, R>(server, shm), OutcomeOf(d, server, shm, first);
    actions := FirstCallIsServed(d, server, shm, first);
    RunSnoc(d, st0, actions, ReceiveReply(1));
    actions := actions + [ReceiveReply(1)];
    actions := EndsCall(d, st0, actions, 1, first, o.replies[0]);
    var end := Run(d, st0, actions);
    assert end.clients == map[1 := Idle] && end.requests == map[1 := []] && end.replies == map[1 := o.replies[1..]];
  }

  /** After a request that was answered twice the client's next call, whatever it is and whatever it copies in or
      out, returns the reply that was left over, and the segment as the client itself has just filled it; the daemon
      has not seen the call. */
  lemma SecondReplyMisleads<S, R>(d: Daemon<S, R>, server: S, shm: Bytes, first: Call<R>, second: Call<R>)
    returns (actions: seq<Action<R>>)
    requires |first.input| <= |shm| && first.outLen <= |shm| && |second.input| <= |shm| && second.outLen <= |shm|
    requires var o := OutcomeOf(d, server, shm, first); |o.replies| == 2 && |o.shm| == |shm|
    ensures var st0, o := Initial<S, R>(server, shm), OutcomeOf(d, server, shm, first);
      && Possible(d, st0, actions)
      && var st := Run(d, st0, actions);
         && st.finished == [Finished(1, first, Result(o.replies[0], o.shm[..first.outLen])),
                            Finished(1, second, Result(o.replies[1], Loaded(o.shm, second.input)[..second.outLen]))]
         && st.deeds == [Served(1, first)] && st.server == o.server
         && st.clients == map[1 := Idle] && st.requests == map[1 := [second]] && st.replies == map[1 := []]
         && st.semaphore == 1 && st.shm == Loaded(o.shm, second.input)
  {
    hide Possible, Run, Loaded;
    var st0, o := Initial<S, R>(server, shm), OutcomeOf(d, server, shm, first);
    actions := FirstCallLeavesAReply(d, server, shm, first);
    actions := SendsCall(d, st0, actions, 1, second);
    RunSnoc(d, st0, actions, ReceiveReply(1));
    actions := actions + [ReceiveReply(1)];
    actions := EndsCall(d, st0, actions, 1, second, o.replies[1]);
    var st := Run(d, st0, actions);
    assert st.requests[1] == [second] && st.replies[1] == [];
    assert st.clients == map[1 := Idle] && st.requests == map[1 := [second]] && st.replies == map[1 := []];
  }

  /** The harm spreads. The daemon serves the client's second call only while client 2 is in its own, ordinary call,
      behind client 2's reply and before its copy: client 2's output is what the other's call has put in the segment. */
  lemma AnotherClientIsHarmed<S(!new), R>(d: Daemon<S, R>, server: S, shm: Bytes, first: Call<R>, second: Call<R>, third: Call<R>)
    returns (actions: seq<Action<R>>)
    requires |first.input| <= |shm| && first.outLen <= |shm| && |second.input| <= |shm| && second.outLen <= |shm|
    requires |third.input| <= |shm| && third.outLen <= |shm|
    requires var o := OutcomeOf(d, server, shm, first); |o.replies| == 2 && |o.shm| == |shm|
    requires AnswersOnce(d, second.request) && AnswersOnce(d, third.request)
    ensures var st0, o := Initial<S, R>(server, shm), OutcomeOf(d, server, shm, first);
      var own := d.handle(o.server, Loaded(Loaded(o.shm, second.input), third.input), 2, third.request);
      var foreign := d.handle(own.server, own.shm, 1, second.request);
      && Possible(d, st0, actions)
      && var st := Run(d, st0, actions);
         && |st.finished| == 3
         && st.finished[2] == Finished(2, third, Result(own.replies[0], foreign.shm[..third.outLen]))
         && st.deeds == [Served(1, first), Served(2, third), Served(1, second)]
  {
    hide Possible, Run, Loaded;
    var st0, o := Initial<S, R>(server, shm), OutcomeOf(d, server, shm, first);
    actions := SecondReplyMisleads(d, server, shm, first, second);
    RunSnoc(d, st0, actions, Connect(2));
    actions := SendsCall(d, st0, actions + [Connect(2)], 2, third);
    var own := d.handle(o.server, Loaded(Loaded(o.shm, second.input), third.input), 2, third.request);
    var sent := Run(d, st0, actions);
    assert sent.requests[2] == [third] && sent.requests[1] == [second];
    RunSnoc(d, st0, actions, HandleRequest(2));
    actions := actions + [HandleRequest(2)];
    assert Run(d, st0, actions).replies[2] == own.replies;
    RunSnoc(d, st0, actions, ReceiveReply(2));
    actions := actions + [ReceiveReply(2)];
    RunSnoc(d, st0, actions, HandleRequest(1));
    actions := actions + [HandleRequest(1)];
    actions := EndsCall(d, st0, actions, 2, third, own.replies[0]);
  }
}
