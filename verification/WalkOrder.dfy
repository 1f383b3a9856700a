/** What the walk visits: every node of the tree, once, parents first. */
module WalkOrder {
  import opened ByteStrings
  import opened PfsTree
  import opened Walk

  /** A node that the walk of the tree n at place p may report: its place lies below p, its node is the one there. */
  ghost predicate Below(p: Place, n: Node, it: Item)
  {
    p <= it.place && Find(n, it.place[|p|..]) == Some(it.node)
  }

  ghost predicate BelowEntries(p: Place, es: seq<Entry>, it: Item)
  {
    && p < it.place
    && var child := FindEntry(es, it.place[|p|]);
       child.Some? && Find(child.value, it.place[|p| + 1..]) == Some(it.node)
  }

  /** A walk that succeeds reports exactly the nodes of the tree, each at its own place. */
  lemma {:induction false} VisitsExactlyTheTree(p: Place, n: Node, it: Item)
    requires WellFormed(n) && WalkNode(p, n).code == 0
    ensures it in WalkNode(p, n).items <==> Below(p, n, it)
    decreases n, 1
  {
    if n.Dir? {
      VisitsExactlyTheEntries(p, n.entries, it);
      if p < it.place {
        assert it.place[|p|..][0] == it.place[|p|];
        assert it.place[|p|..][1..] == it.place[|p| + 1..];
      } else if p <= it.place {
        assert it.place == p && it.place[|p|..] == [];
      }
    } else if p <= it.place {
      assert it.place == p <==> it.place[|p|..] == [];
    }
  }

  lemma {:induction false} VisitsExactlyTheEntries(p: Place, es: seq<Entry>, it: Item)
    requires WellFormedEntries(es) && WalkEntries(p, es).code == 0
    ensures it in WalkEntries(p, es).items <==> BelowEntries(p, es, it)
    decreases es, 0
  {
    if es != [] {
      var q := p + [es[0].name];
      VisitsExactlyTheTree(q, es[0].node, it);
      VisitsExactlyTheEntries(p, es[1..], it);
      assert q <= it.place <==> p < it.place && it.place[|p|] == es[0].name;
      if BelowEntries(p, es[1..], it) {
        NameIsAmong(es[1..], it.place[|p|]);
      }
    }
  }

  /** What a walk reports, even one that is cut short, is in the tree. */
  lemma {:induction false} VisitsOnlyTheTree(p: Place, n: Node, it: Item)
    requires WellFormed(n) && it in WalkNode(p, n).items
    ensures Below(p, n, it)
    decreases n, 1
  {
    if it == Item(p, n) {
      assert it.place[|p|..] == [];
    } else {
      VisitsOnlyTheEntries(p, n.entries, it);
      assert it.place[|p|..][0] == it.place[|p|];
      assert it.place[|p|..][1..] == it.place[|p| + 1..];
    }
  }

  lemma {:induction false} VisitsOnlyTheEntries(p: Place, es: seq<Entry>, it: Item)
    requires WellFormedEntries(es) && it in WalkEntries(p, es).items
    ensures BelowEntries(p, es, it)
    decreases es, 0
  {
    var q := p + [es[0].name];
    if it in WalkNode(q, es[0].node).items {
      VisitsOnlyTheTree(q, es[0].node, it);
    } else {
      VisitsOnlyTheEntries(p, es[1..], it);
      NameIsAmong(es[1..], it.place[|p|]);
    }
  }

  lemma {:induction false} NameIsAmong(es: seq<Entry>, name: Bytes)
    requires FindEntry(es, name).Some?
    ensures exists e :: e in es && e.name == name
  {
    if es[0].name != name {
      NameIsAmong(es[1..], name);
    }
  }

  /** No later item stands at the place of an earlier one or above it: each node is visited once,
      and a directory before everything inside it. */
  ghost predicate InOrder(items: seq<Item>)
  {
    forall i, j :: 0 <= i < j < |items| ==> !(items[j].place <= items[i].place)
  }

  /** Even a walk that is cut short keeps the order. */
  lemma {:induction false} ParentsFirst(p: Place, n: Node)
    requires WellFormed(n)
    ensures InOrder(WalkNode(p, n).items)
    decreases n, 1
  {
    if n.Dir? {
      ParentsFirstInEntries(p, n.entries);
      var items := WalkEntries(p, n.entries).items;
      forall it | it in items ensures p < it.place {
        VisitsOnlyTheEntries(p, n.entries, it);
      }
    }
  }

  lemma {:induction false} ParentsFirstInEntries(p: Place, es: seq<Entry>)
    requires WellFormedEntries(es)
    ensures InOrder(WalkEntries(p, es).items)
    decreases es, 0
  {
    if es != [] {
      var q := p + [es[0].name];
      var here, rest := WalkNode(q, es[0].node).items, WalkEntries(p, es[1..]).items;
      ParentsFirst(q, es[0].node);
      ParentsFirstInEntries(p, es[1..]);
      forall i, j | 0 <= i < |here| && 0 <= j < |rest| ensures !(rest[j].place <= here[i].place) {
        FirstNames(p, es, here[i], rest[j]);
      }
      InOrderConcat(here, rest);
    }
  }

  /** What lies below the first entry and what lies below a later one differ in their first names. */
  lemma FirstNames(p: Place, es: seq<Entry>, first: Item, later: Item)
    requires WellFormedEntries(es) && es != []
    requires first in WalkNode(p + [es[0].name], es[0].node).items && later in WalkEntries(p, es[1..]).items
    ensures !(later.place <= first.place)
  {
    hide WalkNode, WalkEntries, Find;
    VisitsOnlyTheTree(p + [es[0].name], es[0].node, first);
    VisitsOnlyTheEntries(p, es[1..], later);
    NameIsAmong(es[1..], later.place[|p|]);
    assert first.place[|p|] == es[0].name != later.place[|p|];
  }

  lemma InOrderConcat(a: seq<Item>, b: seq<Item>)
    requires InOrder(a) && InOrder(b)
    requires forall i, j :: 0 <= i < |a| && 0 <= j < |b| ==> !(b[j].place <= a[i].place)
    ensures InOrder(a + b)
  {
  }

  /** The place q is that of one of the first n items. */
  ghost predicate Visited(items: seq<Item>, n: nat, q: Place)
    requires n <= |items|
  {
    exists m :: 0 <= m < n && items[m].place == q
  }

  /** Item j comes after the directories above it, down from the given depth. */
  ghost predicate AncestorsBefore(items: seq<Item>, from: nat, j: nat)
    requires j < |items|
  {
    forall i :: from <= i < |items[j].place| ==> Visited(items, j, items[j].place[..i])
  }

  lemma {:induction false} AncestorsAreVisited(p: Place, n: Node, j: nat)
    requires WellFormed(n) && j < |WalkNode(p, n).items|
    ensures AncestorsBefore(WalkNode(p, n).items, |p|, j)
    decreases n, 1
  {
    var items := WalkNode(p, n).items;
    VisitsOnlyTheTree(p, n, items[j]);
    if n.Dir? && j > 0 {
      var rest := WalkEntries(p, n.entries).items;
      AncestorsInEntries(p, n.entries, j - 1);
      assert items == [Item(p, n)] + rest;
      AncestorsBehind([Item(p, n)], rest, |p| + 1, j - 1);
      assert items[0].place == p == items[j].place[..|p|];
      assert Visited(items, j, items[j].place[..|p|]);
    } else {
      assert items[j].place == p;
    }
  }

  lemma AncestorsInMore(items: seq<Item>, more: seq<Item>, from: nat, j: nat)
    requires items <= more && j < |items| && AncestorsBefore(items, from, j)
    ensures AncestorsBefore(more, from, j)
  {
    assert more[j] == items[j];
    forall i | from <= i < |more[j].place| ensures Visited(more, j, more[j].place[..i]) {
      assert Visited(items, j, items[j].place[..i]);
      var m :| 0 <= m < j && items[m].place == items[j].place[..i];
      assert more[m] == items[m];
    }
  }

  lemma AncestorsBehind(front: seq<Item>, items: seq<Item>, from: nat, j: nat)
    requires j < |items| && AncestorsBefore(items, from, j)
    ensures AncestorsBefore(front + items, from, |front| + j)
  {
    var more, k := front + items, |front| + j;
    assert more[k] == items[j];
    forall i | from <= i < |more[k].place| ensures Visited(more, k, more[k].place[..i]) {
      assert Visited(items, j, items[j].place[..i]);
      var m :| 0 <= m < j && items[m].place == items[j].place[..i];
      assert more[|front| + m] == items[m];
    }
  }

  lemma {:induction false} AncestorsInEntries(p: Place, es: seq<Entry>, j: nat)
    requires WellFormedEntries(es) && j < |WalkEntries(p, es).items|
    ensures AncestorsBefore(WalkEntries(p, es).items, |p| + 1, j)
    decreases es, 0
  {
    var q := p + [es[0].name];
    var here, all := WalkNode(q, es[0].node).items, WalkEntries(p, es).items;
    if j < |here| {
      AncestorsAreVisited(q, es[0].node, j);
      AncestorsInMore(here, all, |p| + 1, j);
    } else {
      var k, rest := j - |here|, WalkEntries(p, es[1..]).items;
      AncestorsInEntries(p, es[1..], k);
      AncestorsBehind(here, rest, |p| + 1, k);
      assert all == here + rest;
    }
  }

  /** Every path below p leaves room for its last name in the buffer. */
  ghost predicate Fits(p: Place, n: Node)
  {
    forall q: Place, name: Bytes :: Find(n, q + [name]).Some? ==> |PathOf(p + q)| + |name| < 256
  }

  ghost predicate FitsEntries(p: Place, es: seq<Entry>)
  {
    && (forall i :: 0 <= i < |es| ==> |es[i].name| < PATH_MAX - |PathOf(p)|)
    && (forall i :: 0 <= i < |es| ==> Fits(p + [es[i].name], es[i].node))
  }

  /** The walk goes through exactly when every path fits: it does not stop at anything else. */
  lemma {:induction false} SucceedsIffAllFit(p: Place, n: Node)
    requires WellFormed(n)
    ensures WalkNode(p, n).code == 0 <==> Fits(p, n)
    decreases n, 1
  {
    if n.Dir? {
      EntriesSucceedIffAllFit(p, n.entries);
      FitsIffEntriesFit(p, n);
    } else {
      forall q: Place, name: Bytes ensures Find(n, q + [name]) == None {
        assert q + [name] != [];
      }
    }
  }

  lemma {:induction false} EntriesSucceedIffAllFit(p: Place, es: seq<Entry>)
    requires WellFormedEntries(es)
    ensures WalkEntries(p, es).code == 0 <==> FitsEntries(p, es)
    decreases es, 0
  {
    if es != [] {
      SucceedsIffAllFit(p + [es[0].name], es[0].node);
      EntriesSucceedIffAllFit(p, es[1..]);
      assert forall i :: 0 < i < |es| ==> es[i] == es[1..][i - 1];
      assert forall i :: 0 <= i < |es[1..]| ==> es[1..][i] == es[i + 1];
    }
  }

  lemma FitsIffEntriesFit(p: Place, n: Node)
    requires WellFormed(n) && n.Dir?
    ensures Fits(p, n) <==> FitsEntries(p, n.entries)
  {
    hide PathOf;
    if FitsEntries(p, n.entries) {
      forall q: Place, name: Bytes | Find(n, q + [name]).Some?
        ensures |name| < PATH_MAX - |PathOf(p + q)|
      {
        PathFits(p, n.entries, q, name);
      }
    }
    if Fits(p, n) {
      forall i | 0 <= i < |n.entries|
        ensures |n.entries[i].name| < PATH_MAX - |PathOf(p)| && Fits(p + [n.entries[i].name], n.entries[i].node)
      {
        EntryFits(p, n, i);
      }
    }
  }

  lemma PathFits(p: Place, es: seq<Entry>, q: Place, name: Bytes)
    requires WellFormedEntries(es) && FitsEntries(p, es)
    requires FindEntry(es, (q + [name])[0]).Some?
    requires Find(FindEntry(es, (q + [name])[0]).value, (q + [name])[1..]).Some?
    ensures |name| < PATH_MAX - |PathOf(p + q)|
  {
    EntryOf(es, (q + [name])[0]);
    hide PathOf, FindEntry, Find, Fits;
    var i :| 0 <= i < |es| && es[i].name == (q + [name])[0] && FindEntry(es, es[i].name) == Some(es[i].node);
    PathFitsBelow(p, es[i], q, name);
  }

  lemma PathFitsBelow(p: Place, e: Entry, q: Place, name: Bytes)
    requires e.name == (q + [name])[0] && Find(e.node, (q + [name])[1..]).Some?
    requires |e.name| < PATH_MAX - |PathOf(p)| && Fits(p + [e.name], e.node)
    ensures |name| < PATH_MAX - |PathOf(p + q)|
  {
    hide PathOf, Fits;
    if q == [] {
      assert p + q == p;
    } else {
      assert (q + [name])[1..] == q[1..] + [name];
      assert p + [e.name] + q[1..] == p + q;
      FitsOne(p + [e.name], e.node, q[1..], name);
    }
  }

  lemma EntryFits(p: Place, n: Node, i: nat)
    requires WellFormed(n) && n.Dir? && i < |n.entries| && Fits(p, n)
    ensures |n.entries[i].name| < PATH_MAX - |PathOf(p)|
    ensures Fits(p + [n.entries[i].name], n.entries[i].node)
  {
    var e := n.entries[i];
    FindEntryAt(n.entries, i);
    FitsOne(p, n, [], e.name);
    forall q: Place, name: Bytes | Find(e.node, q + [name]).Some?
      ensures |name| < PATH_MAX - |PathOf(p + [e.name] + q)|
    {
      FitsOneBelow(p, n, e, q, name);
    }
  }

  lemma FitsOne(p: Place, n: Node, q: Place, name: Bytes)
    requires Fits(p, n) && Find(n, q + [name]).Some?
    ensures |name| < PATH_MAX - |PathOf(p + q)|
    ensures q == [] ==> p + q == p
  {
  }

  lemma FitsOneBelow(p: Place, n: Node, e: Entry, q: Place, name: Bytes)
    requires n.Dir? && Fits(p, n)
    requires FindEntry(n.entries, e.name) == Some(e.node) && Find(e.node, q + [name]).Some?
    ensures |name| < PATH_MAX - |PathOf(p + [e.name] + q)|
  {
    hide Fits, PathOf, FindEntry;
    var r := [e.name] + q;
    assert (r + [name])[0] == e.name && (r + [name])[1..] == q + [name];
    assert p + [e.name] + q == p + r;
    FitsOne(p, n, r, name);
  }

  lemma {:induction false} EntryOf(es: seq<Entry>, name: Bytes)
    requires FindEntry(es, name).Some?
    ensures exists i :: 0 <= i < |es| && es[i].name == name && FindEntry(es, name) == Some(es[i].node)
  {
    if es[0].name != name {
      EntryOf(es[1..], name);
      var i :| 0 <= i < |es[1..]| && es[1..][i].name == name && FindEntry(es[1..], name) == Some(es[1..][i].node);
      assert es[i + 1].name == name;
    }
  }
}
