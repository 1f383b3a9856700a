/** The tables of the pfsd daemon: open files, mounts and connections, and what each request does to them. */
module PfsdTables {
  import opened ByteStrings

  const SLOTS := 32

  /** A file or directory that a client holds open; mountIndex is SLOTS when its name was under no mount. */
  datatype OpenFile = OpenFile(fd: int, pid: int, mountIndex: nat)

  /** A mount list entry; pid 0 marks a free slot. */
  datatype Mount = Mount(pid: int, prefix: Bytes, container: Bytes, device: Bytes)

  const FREE := Mount(0, [], [], [])

  /** The daemon's tables and the part of the PFS library they mirror: the open descriptors, and which container
      ("pfs0:", ...) is mounted on which device. */
  datatype Tables = Tables(files: seq<OpenFile>, mounts: seq<Mount>, openFds: set<int>, mounted: map<Bytes, Bytes>)

  // ----- searching the mount list -----

  datatype Query =
    | Unused
    | Exactly(pid: int, prefix: Bytes)
    | Serving(pid: int, name: Bytes)
    | OnDevice(device: Bytes)
    | OwnDevice(pid: int, device: Bytes)

  predicate Matches(q: Query, m: Mount)
  {
    match q
    case Unused => m.pid == 0
    case Exactly(pid, prefix) => m.pid == pid && m.prefix == prefix
    case Serving(pid, name) => m.pid == pid && m.prefix <= name
    case OnDevice(device) => m.pid != 0 && m.device == device
    case OwnDevice(pid, device) => m.pid == pid && m.device == device
  }

  /** The first slot that matches, or the number of slots. */
  function First(ms: seq<Mount>, q: Query): (i: nat)
    ensures i <= |ms|
    ensures i < |ms| ==> Matches(q, ms[i])
    ensures forall k :: 0 <= k < i ==> !Matches(q, ms[k])
  {
    if ms == [] || Matches(q, ms[0]) then 0
    else
      var i := First(ms[1..], q);
      assert forall k :: 0 < k < |ms| ==> ms[k] == ms[1..][k - 1];
      i + 1
  }

  lemma FirstIs(ms: seq<Mount>, q: Query, i: nat)
    requires i <= |ms| && (i < |ms| ==> Matches(q, ms[i])) && forall k :: 0 <= k < i ==> !Matches(q, ms[k])
    ensures First(ms, q) == i
  {
    if First(ms, q) < |ms| {
      assert Matches(q, ms[First(ms, q)]);
    }
    if i < |ms| {
      assert Matches(q, ms[i]);
    }
  }

  // ----- open and close -----

  /** The name that reaches the PFS library: the client's own mount replaced by its container, or the name as it
      is, or nothing when it lies under somebody's container. */
  function Remapped(ms: seq<Mount>, pid: int, name: Bytes): Bytes
  {
    var i := First(ms, Serving(pid, name));
    if i < |ms| then ms[i].container + name[|ms[i].prefix|..]
    else if Guarded(ms, name) then []
    else name
  }

  predicate Guarded(ms: seq<Mount>, name: Bytes)
  {
    exists k :: 0 <= k < |ms| && ms[k].pid != 0 && ms[k].container <= name
  }

  /** A name that is passed on lies under the client's own container, or under no live container at all. */
  lemma RemappedIsConfined(ms: seq<Mount>, pid: int, name: Bytes)
    requires pid != 0
    ensures var r := Remapped(ms, pid, name);
      || r == []
      || (exists i :: 0 <= i < |ms| && ms[i].pid == pid && ms[i].prefix <= name && ms[i].container <= r
            && r[|ms[i].container|..] == name[|ms[i].prefix|..])
      || (r == name && forall k :: 0 <= k < |ms| && ms[k].pid != 0 ==> !(ms[k].container <= r))
  {
    var i := First(ms, Serving(pid, name));
    if i < |ms| {
      assert Matches(Serving(pid, name), ms[i]);
      assert ms[i].pid == pid && ms[i].prefix <= name;
    }
  }

  const EMFILE := 24
  const EBADF := 9
  const EBUSY := 16
  const ENODEV := 19

  /** A reply and the tables it leaves behind. */
  datatype Done = Done(reply: int, tables: Tables)

  /** open and dopen; answer is what the library returns if it is asked. */
  function OpenStep(t: Tables, pid: int, name: Bytes, answer: int): Done
  {
    if |t.files| >= SLOTS then Done(-EMFILE, t)
    else if answer < 0 then Done(answer, t)
    else
      Done(answer, t.(files := t.files + [OpenFile(answer, pid, First(t.mounts, Serving(pid, name)))],
                      openFds := t.openFds + {answer}))
  }

  predicate Owns(files: seq<OpenFile>, pid: int, fd: int)
  {
    exists i :: 0 <= i < |files| && files[i].fd == fd && files[i].pid == pid
  }

  /** The first entry of the given descriptor and client, or the number of entries. */
  function Entry(files: seq<OpenFile>, pid: int, fd: int): (i: nat)
    ensures i <= |files|
    ensures i < |files| ==> files[i].fd == fd && files[i].pid == pid
    ensures forall k :: 0 <= k < i ==> files[k].fd != fd || files[k].pid != pid
  {
    if files == [] || (files[0].fd == fd && files[0].pid == pid) then 0
    else
      var i := Entry(files[1..], pid, fd);
      assert forall k :: 0 < k < |files| ==> files[k] == files[1..][k - 1];
      i + 1
  }

  function Without<T>(s: seq<T>, i: nat): seq<T>
    requires i < |s|
  {
    s[..i] + s[i + 1..]
  }

  /** close and dclose: a descriptor of another client is passed on as -1, which the library refuses. */
  function CloseStep(t: Tables, pid: int, fd: int): Done
  {
    if !Owns(t.files, pid, fd) || fd !in t.openFds then Done(-EBADF, t)
    else
      Done(0, t.(files := Without(t.files, Entry(t.files, pid, fd)), openFds := t.openFds - {fd}))
  }

  // ----- mount and umount -----

  /** The name up to the first comma. */
  function UntilComma(s: Bytes): (r: Bytes)
    ensures r <= s && 44 !in r
    ensures |r| < |s| ==> s[|r|] == 44
  {
    if s == [] || s[0] == 44 then [] else [s[0]] + UntilComma(s[1..])
  }

  /** What the library answers to one mount request, and what is mounted afterwards: -16 when the container or
      the device is taken, otherwise its own answer. */
  datatype Answer = Answer(code: int, container: Bytes, mounted: map<Bytes, Bytes>)

  function LibraryMount(mounted: map<Bytes, Bytes>, container: Bytes, device: Bytes, answer: int): Answer
  {
    if container in mounted || device in mounted.Values then Answer(-EBUSY, container, mounted)
    else Answer(answer, container, if answer == 0 then mounted[container := device] else mounted)
  }

  /** "pfs<i>:" */
  function PfsName(i: nat): Bytes
    requires i < SLOTS
  {
    [112, 102, 115] + (if i < 10 then [48 + i] else [48 + i / 10, 48 + i % 10]) + [58]
  }

  /** The fallback loop from pfs<i>: on, while the answer is still -16. */
  function TryPfsNames(a: Answer, device: Bytes, i: nat, answers: nat -> int): Answer
    requires i <= SLOTS
    decreases SLOTS - i
  {
    if i == SLOTS || a.code != -EBUSY then a
    else TryPfsNames(LibraryMount(a.mounted, PfsName(i), device, answers(i + 1)), device, i + 1, answers)
  }

  /** The library's part of a mount: the request itself; when that is busy, the container another client has
      mounted the device on, or else the first pfs<i>: that is granted. */
  function MountAt(t: Tables, prefix: Bytes, device: Bytes, answers: nat -> int): Answer
  {
    var a := LibraryMount(t.mounted, prefix, device, answers(0));
    if a.code != -EBUSY then a
    else
      var i := First(t.mounts, OnDevice(device));
      if i < |t.mounts| then Answer(0, t.mounts[i].container, t.mounted)
      else TryPfsNames(a, device, 0, answers)
  }

  function MountStep(t: Tables, pid: int, prefix: Bytes, devname: Bytes, answers: nat -> int): Done
  {
    var slot := First(t.mounts, Unused);
    if slot == |t.mounts| then Done(-EMFILE, t)
    else if First(t.mounts, Exactly(pid, prefix)) < |t.mounts| then Done(-EBUSY, t)
    else
      var device := UntilComma(devname);
      var a := MountAt(t, prefix, device, answers);
      var t := t.(mounted := a.mounted);
      Done(a.code, if a.code == 0 then t.(mounts := t.mounts[slot := Mount(pid, prefix, a.container, device)]) else t)
  }

  predicate InUse(files: seq<OpenFile>, slot: nat)
  {
    exists j :: 0 <= j < |files| && files[j].mountIndex == slot
  }

  /** umount frees the client's slot unless one of its files is open under it. The library is not told. */
  function UmountStep(t: Tables, pid: int, prefix: Bytes): Done
  {
    var i := First(t.mounts, Exactly(pid, prefix));
    if i == |t.mounts| then Done(-ENODEV, t)
    else if InUse(t.files, i) then Done(-EBUSY, t)
    else Done(0, t.(mounts := t.mounts[i := FREE]))
  }

  // ----- what clients ask for -----

  /** The requests that change the tables. The library's answers come with them: which descriptor it hands out,
      given those that are open, and what it says to the n-th mount that is not busy. */
  datatype Ask =
    | Open(name: Bytes, answer: set<int> -> int)
    | Close(fd: int)
    | MountAs(prefix: Bytes, devname: Bytes, answers: nat -> int)
    | Umount(prefix: Bytes)

  function AskStep(t: Tables, pid: int, ask: Ask): Done
  {
    match ask
    case Open(name, answer) => OpenStep(t, pid, name, answer(t.openFds))
    case Close(fd) => CloseStep(t, pid, fd)
    case MountAs(prefix, devname, answers) => MountStep(t, pid, prefix, devname, answers)
    case Umount(prefix) => UmountStep(t, pid, prefix)
  }

  /** The library hands out descriptors that are not open, and answers a free mount with 0 or an error other
      than -16. */
  ghost predicate FromLibrary(ask: Ask)
  {
    match ask
    case Open(_, answer) => forall fds :: answer(fds) !in fds
    case MountAs(_, _, answers) => forall n :: answers(n) <= 0 && answers(n) != -EBUSY
    case _ => true
  }

  // ----- clients coming and going -----

  /** The entries of everybody else, in order. */
  function Others(files: seq<OpenFile>, pid: int): (r: seq<OpenFile>)
    ensures forall f :: f in r <==> f in files && f.pid != pid
  {
    if files == [] then []
    else (if files[0].pid != pid then [files[0]] else []) + Others(files[1..], pid)
  }

  function FdsOf(files: seq<OpenFile>, pid: int): set<int> { set i | 0 <= i < |files| && files[i].pid == pid :: files[i].fd }

  function MountsOfOthers(ms: seq<Mount>, pid: int): (r: seq<Mount>)
    ensures |r| == |ms|
    ensures forall i :: 0 <= i < |ms| ==> r[i] == if ms[i].pid == pid then FREE else ms[i]
  {
    seq(|ms|, i requires 0 <= i < |ms| => if ms[i].pid == pid then FREE else ms[i])
  }

  /** The tables with every file of the client closed. */
  function WithoutFilesOf(t: Tables, pid: int): Tables
  {
    t.(files := Others(t.files, pid), openFds := t.openFds - FdsOf(t.files, pid))
  }

  /** What cleanup_client leaves: every file of the client closed, every slot of the client free. */
  function CleanupStep(t: Tables, pid: int): Tables
  {
    WithoutFilesOf(t, pid).(mounts := MountsOfOthers(t.mounts, pid))
  }
}
