/** A PFS partition as a tree of nodes, and the path strings that name them. */
module PfsTree {
  import opened ByteStrings
  import Modes

  type Stamp = b: Bytes | |b| == 8 witness Zeros(8)

  datatype Node =
    | Dir(mode: nat, mtime: Stamp, entries: seq<Entry>)
    | File(mode: nat, mtime: Stamp, data: Bytes)
    | Link(mode: nat, mtime: Stamp, target: Bytes)

  datatype Entry = Entry(name: Bytes, node: Node)

  /** A node's place: the names to follow from the root. */
  type Place = seq<Bytes>

  datatype Option<+T> = None | Some(value: T)

  /** "pfs0:/" */
  const ROOT: Bytes := [112, 102, 115, 48, 58, 47]

  predicate ValidName(s: Bytes)
  {
    s != [] && NUL !in s && SLASH !in s && s != [DOT] && s != [DOT, DOT]
  }

  predicate ValidPlace(p: Place) { forall i :: 0 <= i < |p| ==> ValidName(p[i]) }

  /** The kind bits of the mode agree with the kind of node. */
  predicate KindAgrees(n: Node)
  {
    Modes.Kind(n.mode) == (match n case Dir(_, _, _) => Modes.FIO_DIR
                                   case File(_, _, _) => Modes.FIO_REG
                                   case Link(_, _, _) => Modes.FIO_LNK)
  }

  /** What any mounted partition offers: proper names, no two alike in a directory. */
  ghost predicate WellFormed(n: Node)
  {
    && KindAgrees(n)
    && (n.Link? ==> NUL !in n.target)
    && (n.Dir? ==> WellFormedEntries(n.entries))
  }

  ghost predicate WellFormedEntries(es: seq<Entry>)
  {
    es == [] ||
    (&& ValidName(es[0].name) && WellFormed(es[0].node)
     && (forall e :: e in es[1..] ==> e.name != es[0].name)
     && WellFormedEntries(es[1..]))
  }

  /** Looking up one name in a directory. */
  function FindEntry(es: seq<Entry>, name: Bytes): Option<Node>
  {
    if es == [] then None
    else if es[0].name == name then Some(es[0].node)
    else FindEntry(es[1..], name)
  }

  /** The node at a place, if there is one. */
  function Find(n: Node, p: Place): Option<Node>
    decreases |p|
  {
    if p == [] then Some(n)
    else if !n.Dir? then None
    else match FindEntry(n.entries, p[0])
      case None => None
      case Some(child) => Find(child, p[1..])
  }

  /** The names between the slashes of a string; empty ones do not count. */
  function Split(s: Bytes, word: Bytes): Place
  {
    if s == [] then if word == [] then [] else [word]
    else if s[0] == SLASH then (if word == [] then [] else [word]) + Split(s[1..], [])
    else Split(s[1..], word + [s[0]])
  }

  /** The place a path string names: everything after "pfs0:". */
  function PlaceOf(path: Bytes): Place
  {
    if |path| >= 5 then Split(path[5..], []) else []
  }

  /** A place relative to the root, as a string. */
  function Join(p: Place): Bytes
  {
    if p == [] then []
    else if |p| == 1 then p[0]
    else Join(p[..|p| - 1]) + [SLASH] + p[|p| - 1]
  }

  /** The path string of a place. */
  function PathOf(p: Place): Bytes { ROOT + Join(p) }

  lemma {:induction false} SplitWord(s: Bytes, w: Bytes, word: Bytes)
    requires SLASH !in w
    ensures Split(w + s, word) == Split(s, word + w)
  {
    if w == [] {
      assert w + s == s && word + w == word;
    } else {
      assert (w + s)[1..] == w[1..] + s;
      assert word + [w[0]] + w[1..] == word + w;
      SplitWord(s, w[1..], word + [w[0]]);
    }
  }

  /** Names in front of the rest of a string are split off unchanged. */
  lemma {:induction false} SplitJoin(p: Place, s: Bytes)
    requires ValidPlace(p) && p != []
    ensures Split(Join(p) + [SLASH] + s, []) == p + Split(s, [])
    ensures Split(Join(p), []) == p
  {
    hide Split;
    var n := |p| - 1;
    var last := p[n];
    SplitLast(last, s);
    if n == 0 {
      assert p == [last] && Join(p) == last;
    } else {
      var front := p[..n];
      assert front + [last] == p;
      SplitJoin(front, last + ([SLASH] + s));
      SplitJoin(front, last);
      assert Join(p) + [SLASH] + s == Join(front) + [SLASH] + (last + ([SLASH] + s));
      assert Join(p) == Join(front) + [SLASH] + last;
      assert front + ([last] + Split(s, [])) == p + Split(s, []);
    }
  }

  lemma SplitLast(last: Bytes, s: Bytes)
    requires ValidName(last)
    ensures Split(last + ([SLASH] + s), []) == [last] + Split(s, [])
    ensures last + ([SLASH] + s) == last + [SLASH] + s
    ensures Split(last, []) == [last]
  {
    assert ([SLASH] + s)[1..] == s;
    SplitWord([SLASH] + s, last, []);
    SplitWord([], last, []);
    assert [] + last == last && last + [] == last;
  }

  /** A path string names the place it was made from. */
  lemma PlaceOfPathOf(p: Place)
    requires ValidPlace(p)
    ensures PlaceOf(PathOf(p)) == p
  {
    assert PathOf(p)[5..] == [SLASH] + Join(p);
    assert ([SLASH] + Join(p))[1..] == Join(p);
    if p != [] {
      SplitJoin(p, []);
    }
  }

  lemma JoinSnoc(p: Place, name: Bytes)
    ensures Join(p + [name]) == (if p == [] then name else Join(p) + [SLASH] + name)
  {
    assert (p + [name])[..|p|] == p;
  }

  lemma {:induction false} JoinHasNoNul(p: Place)
    requires ValidPlace(p)
    ensures NUL !in Join(p)
    ensures p != [] ==> Join(p) != []
  {
    if |p| > 1 {
      JoinHasNoNul(p[..|p| - 1]);
    } else if |p| == 1 {
      assert ValidName(p[0]);
    }
  }

  /** Following one more name. */
  lemma {:induction false} FindSnoc(n: Node, p: Place, name: Bytes)
    ensures Find(n, p + [name]) ==
      match Find(n, p) {
        case None => None
        case Some(d) => if d.Dir? then FindEntry(d.entries, name) else None
      }
    decreases |p|
  {
    if p == [] {
      assert (p + [name])[1..] == [];
    } else if n.Dir? && FindEntry(n.entries, p[0]).Some? {
      assert (p + [name])[1..] == p[1..] + [name];
      FindSnoc(FindEntry(n.entries, p[0]).value, p[1..], name);
    }
  }

  lemma {:induction false} FindEntryAt(es: seq<Entry>, i: nat)
    requires WellFormedEntries(es) && i < |es|
    ensures FindEntry(es, es[i].name) == Some(es[i].node)
    ensures ValidName(es[i].name) && WellFormed(es[i].node)
  {
    if i > 0 {
      assert es[i] == es[1..][i - 1];
      FindEntryAt(es[1..], i - 1);
    }
  }
}
