/**
 The intrusive circular list of `lite-list.h`: a head that is linked in a ring with the entries. Each
 operation refines one on sequences.
 */
module LiteList {
  import opened Sequences

  class Link {
    var next: Link
    var prev: Link

    /** `INIT_LIST_HEAD`. */
    constructor ()
      ensures next == this && prev == this
    {
      next, prev := this, this;
    }

    method Init()
      modifies this
      ensures Ring(this, [])
    {
      next, prev := this, this;
    }
  }

  /** Entry `i`; both ends lead to the head. */
  function Entry(head: Link, s: seq<Link>, i: int): Link {
    if 0 <= i < |s| then s[i] else head
  }

  predicate NoRepeats(s: seq<Link>) {
    forall i, j :: 0 <= i < j < |s| ==> s[i] != s[j]
  }

  /** The ring of `head` holds the entries `s`. */
  ghost predicate Ring(head: Link, s: seq<Link>)
    reads head, s
  {
    && head !in s && NoRepeats(s)
    && head.next == Entry(head, s, 0) && head.prev == Entry(head, s, |s| - 1)
    && (forall i :: 0 <= i < |s| ==> s[i].next == Entry(head, s, i + 1))
    && (forall i :: 0 <= i < |s| ==> s[i].prev == Entry(head, s, i - 1))
  }

  /** The entries, as a frame. */
  ghost function Links(s: seq<Link>): (r: set<Link>)
    ensures forall x :: x in r ==> x in s
    ensures forall x :: x in s ==> x in r
  {
    set x | x in s
  }

  /** An entry is at one place only. */
  lemma EntryIs(head: Link, s: seq<Link>, i: int)
    requires head !in s && NoRepeats(s) && -1 <= i <= |s|
    ensures forall k :: 0 <= k < |s| ==> (s[k] == Entry(head, s, i) <==> k == i)
    ensures head == Entry(head, s, i) <==> !(0 <= i < |s|)
  {
    forall k | 0 <= k < |s| ensures s[k] == Entry(head, s, i) <==> k == i {
      assert s[k] in s;
    }
  }

  // ----- adding

  /** `__list_add`, between two neighbours. */
  method AddBetween(entry: Link, prev: Link, next: Link, ghost head: Link, ghost s: seq<Link>, ghost i: nat)
    requires Ring(head, s) && entry !in s && entry != head && i <= |s|
    requires prev == Entry(head, s, i - 1) && next == Entry(head, s, i)
    modifies entry, head, Links(s)
    ensures Ring(head, InsertAt(s, i, entry))
  {
    EntryIs(head, s, i);
    EntryIs(head, s, i - 1);
    Splice(entry, prev, next);
    Added(head, s, i, entry);
  }

  method Splice(entry: Link, prev: Link, next: Link)
    requires entry != prev && entry != next
    modifies next`prev, entry, prev`next
    ensures next.prev == entry && entry.next == next && entry.prev == prev && prev.next == entry
  {
    next.prev := entry;
    entry.next := next;
    entry.prev := prev;
    prev.next := entry;
  }

  lemma InsertedAt(s: seq<Link>, i: nat, x: Link)
    requires i <= |s|
    ensures forall k :: 0 <= k <= |s| ==> InsertAt(s, i, x)[k] == if k < i then s[k] else if k == i then x else s[k - 1]
    ensures forall y :: y in InsertAt(s, i, x) ==> y in s || y == x
    ensures NoRepeats(s) && x !in s ==> NoRepeats(InsertAt(s, i, x))
  {
    var r := InsertAt(s, i, x);
    assert r == s[..i] + ([x] + s[i..]);
    forall k | 0 <= k <= |s| ensures r[k] == if k < i then s[k] else if k == i then x else s[k - 1] {
      if k > i {
        assert r[k] == ([x] + s[i..])[k - i];
      }
    }
  }

  lemma Added(head: Link, s: seq<Link>, i: nat, x: Link)
    requires head !in s && NoRepeats(s) && x !in s && x != head && i <= |s|
    requires head.next == (if i == 0 then x else s[0])
    requires head.prev == (if i == |s| then x else s[|s| - 1])
    requires forall k :: 0 <= k < |s| ==> s[k].next == if k + 1 == i then x else Entry(head, s, k + 1)
    requires forall k :: 0 <= k < |s| ==> s[k].prev == if k == i then x else Entry(head, s, k - 1)
    requires x.next == Entry(head, s, i) && x.prev == Entry(head, s, i - 1)
    ensures Ring(head, InsertAt(s, i, x))
  {
    InsertedAt(s, i, x);
    AddedNext(head, s, i, x);
    AddedPrev(head, s, i, x);
  }

  lemma AddedNext(head: Link, s: seq<Link>, i: nat, x: Link)
    requires i <= |s| && x.next == Entry(head, s, i)
    requires forall k :: 0 <= k < |s| ==> s[k].next == if k + 1 == i then x else Entry(head, s, k + 1)
    ensures var r := InsertAt(s, i, x); forall k :: 0 <= k < |r| ==> r[k].next == Entry(head, r, k + 1)
  {
    InsertedAt(s, i, x);
    var r := InsertAt(s, i, x);
    forall k | 0 <= k < |r| ensures r[k].next == Entry(head, r, k + 1) {
      assert k + 1 < |r| ==> r[k + 1] == if k + 1 < i then s[k + 1] else if k + 1 == i then x else s[k];
    }
  }

  lemma AddedPrev(head: Link, s: seq<Link>, i: nat, x: Link)
    requires i <= |s| && x.prev == Entry(head, s, i - 1)
    requires forall k :: 0 <= k < |s| ==> s[k].prev == if k == i then x else Entry(head, s, k - 1)
    ensures var r := InsertAt(s, i, x); forall k :: 0 <= k < |r| ==> r[k].prev == Entry(head, r, k - 1)
  {
    InsertedAt(s, i, x);
    var r := InsertAt(s, i, x);
    forall k | 0 <= k < |r| ensures r[k].prev == Entry(head, r, k - 1) {
      assert k > 0 ==> r[k - 1] == if k - 1 < i then s[k - 1] else if k - 1 == i then x else s[k - 2];
    }
  }

  /** `list_add`. */
  method Add(entry: Link, head: Link, ghost s: seq<Link>)
    requires Ring(head, s) && entry !in s && entry != head
    modifies entry, head, Links(s)
    ensures Ring(head, [entry] + s)
  {
    AddBetween(entry, head, head.next, head, s, 0);
    assert InsertAt(s, 0, entry) == [entry] + s;
  }

  /** `list_add_tail`. */
  method AddTail(entry: Link, head: Link, ghost s: seq<Link>)
    requires Ring(head, s) && entry !in s && entry != head
    modifies entry, head, Links(s)
    ensures Ring(head, s + [entry])
  {
    AddBetween(entry, head.prev, head, head, s, |s|);
    assert InsertAt(s, |s|, entry) == s + [entry];
  }

  // ----- deleting

  /** `list_del`: the entry itself keeps its links. */
  method Delete(entry: Link, ghost head: Link, ghost s: seq<Link>, ghost i: nat)
    requires Ring(head, s) && i < |s| && entry == s[i]
    modifies head, Links(s)
    ensures Ring(head, RemoveAt(s, i))
    ensures entry.next == old(entry.next) && entry.prev == old(entry.prev)
  {
    EntryIs(head, s, i);
    EntryIs(head, s, i - 1);
    EntryIs(head, s, i + 1);
    var prev, next := entry.prev, entry.next;
    next.prev := prev;
    prev.next := next;
    Deleted(head, s, i);
  }

  lemma RemovedAt(s: seq<Link>, i: nat)
    requires i < |s| && NoRepeats(s)
    ensures NoRepeats(RemoveAt(s, i)) && s[i] !in RemoveAt(s, i)
    ensures forall y :: y in RemoveAt(s, i) ==> y in s
    ensures forall y :: y in s && y != s[i] ==> y in RemoveAt(s, i)
  {
    var r := RemoveAt(s, i);
    forall k | 0 <= k < |r| ensures r[k] in s && r[k] != s[i] && r[k] == s[if k < i then k else k + 1] {
      assert r[k] == s[if k < i then k else k + 1];
    }
    forall y | y in s && y != s[i] ensures y in r {
      var k :| 0 <= k < |s| && s[k] == y;
      assert r[if k < i then k else k - 1] == y;
    }
  }

  lemma Deleted(head: Link, s: seq<Link>, i: nat)
    requires head !in s && NoRepeats(s) && i < |s|
    requires head.next == if i == 0 then Entry(head, s, 1) else Entry(head, s, 0)
    requires head.prev == if i == |s| - 1 then Entry(head, s, |s| - 2) else Entry(head, s, |s| - 1)
    requires forall k :: 0 <= k < |s| && k != i ==> s[k].next == if k + 1 == i then Entry(head, s, k + 2) else Entry(head, s, k + 1)
    requires forall k :: 0 <= k < |s| && k != i ==> s[k].prev == if k - 1 == i then Entry(head, s, k - 2) else Entry(head, s, k - 1)
    ensures Ring(head, RemoveAt(s, i))
  {
    RemovedAt(s, i);
    DeletedEnds(head, s, i);
    DeletedNext(head, s, i);
    DeletedPrev(head, s, i);
  }

  lemma DeletedEnds(head: Link, s: seq<Link>, i: nat)
    requires i < |s|
    ensures Entry(head, RemoveAt(s, i), 0) == if i == 0 then Entry(head, s, 1) else Entry(head, s, 0)
    ensures Entry(head, RemoveAt(s, i), |s| - 2) == if i == |s| - 1 then Entry(head, s, |s| - 2) else Entry(head, s, |s| - 1)
  {
  }

  lemma DeletedNext(head: Link, s: seq<Link>, i: nat)
    requires i < |s|
    requires forall k :: 0 <= k < |s| && k != i ==> s[k].next == if k + 1 == i then Entry(head, s, k + 2) else Entry(head, s, k + 1)
    ensures var r := RemoveAt(s, i); forall k :: 0 <= k < |r| ==> r[k].next == Entry(head, r, k + 1)
  {
    var r := RemoveAt(s, i);
    forall k | 0 <= k < |r| ensures r[k].next == Entry(head, r, k + 1) {
      if k < i {
        assert r[k] == s[k] && s[k].next == if k + 1 == i then Entry(head, s, k + 2) else Entry(head, s, k + 1);
      } else {
        assert r[k] == s[k + 1] && s[k + 1].next == Entry(head, s, k + 2);
      }
    }
  }

  lemma DeletedPrev(head: Link, s: seq<Link>, i: nat)
    requires i < |s|
    requires forall k :: 0 <= k < |s| && k != i ==> s[k].prev == if k - 1 == i then Entry(head, s, k - 2) else Entry(head, s, k - 1)
    ensures var r := RemoveAt(s, i); forall k :: 0 <= k < |r| ==> r[k].prev == Entry(head, r, k - 1)
  {
    var r := RemoveAt(s, i);
    forall k | 0 <= k < |r| ensures r[k].prev == Entry(head, r, k - 1) {
      if k < i {
        assert r[k] == s[k] && s[k].prev == Entry(head, s, k - 1);
      } else {
        assert r[k] == s[k + 1] && s[k + 1].prev == Entry(head, s, if k == i then k - 1 else k);
      }
    }
  }

  // ----- replacing

  /** `list_replace` of a head: the new head takes over the entries, also when there are none. */
  method ReplaceHead(head: Link, entry: Link, ghost s: seq<Link>)
    requires Ring(head, s) && entry !in s && entry != head
    modifies head, entry, Links(s)
    ensures Ring(entry, s)
  {
    entry.next := head.next;
    entry.next.prev := entry;
    entry.prev := head.prev;
    entry.prev.next := entry;
  }

  /** `list_replace_init`: the old head is left empty. */
  method ReplaceHeadInit(head: Link, entry: Link, ghost s: seq<Link>)
    requires Ring(head, s) && entry !in s && entry != head
    modifies head, entry, Links(s)
    ensures Ring(entry, s) && Ring(head, [])
  {
    ReplaceHead(head, entry, s);
    head.Init();
  }

  /** `list_replace` of an entry. */
  method ReplaceEntry(before: Link, entry: Link, ghost head: Link, ghost s: seq<Link>, ghost i: nat, ghost r: seq<Link>)
    requires Ring(head, s) && entry !in s && entry != head && i < |s| && before == s[i] && r == s[i := entry]
    modifies head, entry, Links(s)
    ensures Ring(head, r)
  {
    EntryIs(head, s, i);
    EntryIs(head, s, i - 1);
    EntryIs(head, s, i + 1);
    assert Entry(head, s, i - 1) != entry && Entry(head, s, i + 1) != entry;
    TakePlace(before, entry);
    Replaced(head, s, i, entry);
  }

  method TakePlace(before: Link, entry: Link)
    requires entry != before && before.next != before && before.prev != before
    requires before.next != entry && before.prev != entry
    modifies entry, before.next`prev, before.prev`next
    ensures entry.next == old(before.next) && entry.prev == old(before.prev)
    ensures entry.next.prev == entry && entry.prev.next == entry
  {
    entry.next := before.next;
    entry.next.prev := entry;
    entry.prev := before.prev;
    entry.prev.next := entry;
  }

  lemma Replaced(head: Link, s: seq<Link>, i: nat, x: Link)
    requires head !in s && NoRepeats(s) && x !in s && x != head && i < |s|
    requires head.next == (if i == 0 then x else s[0]) && head.prev == (if i == |s| - 1 then x else s[|s| - 1])
    requires forall k :: 0 <= k < |s| && k != i ==> s[k].next == if k + 1 == i then x else Entry(head, s, k + 1)
    requires forall k :: 0 <= k < |s| && k != i ==> s[k].prev == if k - 1 == i then x else Entry(head, s, k - 1)
    requires x.next == Entry(head, s, i + 1) && x.prev == Entry(head, s, i - 1)
    ensures Ring(head, s[i := x])
  {
    ReplacedNext(head, s, i, x);
    ReplacedPrev(head, s, i, x);
  }

  lemma ReplacedNext(head: Link, s: seq<Link>, i: nat, x: Link)
    requires i < |s| && x.next == Entry(head, s, i + 1)
    requires forall k :: 0 <= k < |s| && k != i ==> s[k].next == if k + 1 == i then x else Entry(head, s, k + 1)
    ensures var r := s[i := x]; forall k :: 0 <= k < |r| ==> r[k].next == Entry(head, r, k + 1)
  {
    var r := s[i := x];
    forall k | 0 <= k < |r| ensures r[k].next == Entry(head, r, k + 1) {
      if k != i { assert r[k] == s[k]; }
    }
  }

  lemma ReplacedPrev(head: Link, s: seq<Link>, i: nat, x: Link)
    requires i < |s| && x.prev == Entry(head, s, i - 1)
    requires forall k :: 0 <= k < |s| && k != i ==> s[k].prev == if k - 1 == i then x else Entry(head, s, k - 1)
    ensures var r := s[i := x]; forall k :: 0 <= k < |r| ==> r[k].prev == Entry(head, r, k - 1)
  {
    var r := s[i := x];
    forall k | 0 <= k < |r| ensures r[k].prev == Entry(head, r, k - 1) {
      if k != i { assert r[k] == s[k]; }
      assert k > 0 ==> r[k - 1] == if k - 1 == i then x else s[k - 1];
    }
  }

  // ----- moving

  /** `list_move_tail` within one list. */
  method MoveTailWithin(entry: Link, head: Link, ghost s: seq<Link>, ghost i: nat)
    requires Ring(head, s) && i < |s| && entry == s[i]
    modifies head, Links(s)
    ensures Ring(head, RemoveAt(s, i) + [entry])
  {
    RemovedAt(s, i);
    Delete(entry, head, s, i);
    AddTail(entry, head, RemoveAt(s, i));
  }

  /** Two lists with nothing in common. */
  ghost predicate Disjoint(head: Link, s: seq<Link>, head2: Link, s2: seq<Link>) {
    head != head2 && head !in s2 && head2 !in s && forall x :: x in s ==> x !in s2
  }

  /** `list_del` on one list does not disturb the other. */
  method DeleteApart(entry: Link, ghost head: Link, ghost s: seq<Link>, ghost i: nat, ghost to: Link, ghost t: seq<Link>)
    requires Ring(head, s) && i < |s| && entry == s[i] && Ring(to, t) && Disjoint(head, s, to, t)
    modifies head, Links(s)
    ensures Ring(head, RemoveAt(s, i)) && Ring(to, t)
    ensures Disjoint(head, RemoveAt(s, i), to, t) && entry !in t && entry != to && entry !in RemoveAt(s, i) && entry != head
  {
    RemovedAt(s, i);
    assert entry in s;
    Delete(entry, head, s, i);
  }

  /** Adding to one list does not disturb the other. */
  method AddApart(entry: Link, to: Link, tail: bool, ghost t: seq<Link>, ghost head: Link, ghost s: seq<Link>)
    requires Ring(head, s) && Ring(to, t) && Disjoint(head, s, to, t)
    requires entry !in s && entry != head && entry !in t && entry != to
    modifies entry, to, Links(t)
    ensures Ring(head, s) && Ring(to, Extended(t, entry, tail)) && Disjoint(head, s, to, Extended(t, entry, tail))
  {
    if tail {
      AddTail(entry, to, t);
    } else {
      Add(entry, to, t);
    }
  }

  function Extended(t: seq<Link>, entry: Link, tail: bool): seq<Link> {
    if tail then t + [entry] else [entry] + t
  }

  // ----- rotating

  function Rotated(s: seq<Link>): seq<Link> {
    if s == [] then [] else s[1..] + [s[0]]
  }

  /** The first `n` entries at the end. */
  function Turned(s: seq<Link>, n: nat): seq<Link>
    requires n <= |s|
  {
    s[n..] + s[..n]
  }

  lemma TurnedOnce(s: seq<Link>, n: nat)
    requires n < |s|
    ensures Rotated(Turned(s, n)) == Turned(s, n + 1)
  {
    var t := Turned(s, n);
    assert t[0] == s[n];
    assert t[1..] == s[n + 1..] + s[..n];
    assert s[..n] + [s[n]] == s[..n + 1];
  }

  lemma TurnedEnds(s: seq<Link>)
    ensures Turned(s, 0) == s && Turned(s, |s|) == s
  {
  }

  /** `list_rotate_left`. */
  method RotateLeft(head: Link, ghost s: seq<Link>, ghost r: seq<Link>)
    requires Ring(head, s) && r == Rotated(s)
    modifies head, Links(s)
    ensures Ring(head, r)
  {
    if head.next != head {
      assert RemoveAt(s, 0) == s[1..];
      MoveTailWithin(head.next, head, s, 0);
    }
  }

  lemma RotatedKeepsNodes(s: seq<Link>)
    ensures |Rotated(s)| == |s| && multiset(Rotated(s)) == multiset(s)
    ensures Links(Rotated(s)) == Links(s)
  {
    if s != [] {
      assert s == [s[0]] + s[1..];
    }
  }

  /** As many rotations as there are entries leave the list as it was. */
  method RotateFully(head: Link, n: nat, ghost s: seq<Link>, ghost nodes: set<Link>)
    requires Ring(head, s) && n == |s| && nodes == Links(s)
    modifies head, nodes
    ensures Ring(head, s)
  {
    ghost var t := s;
    var i := 0;
    TurnedEnds(s);
    while i < n
      invariant 0 <= i <= n && Ring(head, t) && t == Turned(s, i) && Links(t) == nodes
    {
      TurnedOnce(s, i);
      RotatedKeepsNodes(t);
      ghost var r := Turned(s, i + 1);
      RotateLeft(head, t, r);
      t, i := r, i + 1;
    }
  }

  // ----- iterating

  function Kept(s: seq<Link>, doomed: set<Link>): seq<Link> {
    if s == [] then [] else (if s[0] in doomed then [] else [s[0]]) + Kept(s[1..], doomed)
  }

  /**
   `list_for_each_safe` with a body that deletes some of the entries it visits: every entry is visited
   once, in order, and the others are left.
   */
  method ForEachSafe(head: Link, doomed: set<Link>, ghost s: seq<Link>) returns (visited: seq<Link>)
    requires Ring(head, s)
    modifies head, Links(s)
    ensures visited == s && Ring(head, Kept(s, doomed))
  {
    visited := [];
    var pos := head.next;
    var next := pos.next;
    ghost var kept: seq<Link>, rest, all := [], s, s;
    AfterVisit(head, kept, rest, all);
    while pos != head
      invariant Ring(head, all) && all == kept + rest && visited + rest == s && Links(all) <= Links(s)
      invariant kept + Kept(rest, doomed) == Kept(s, doomed)
      invariant pos == Entry(head, rest, 0) && (rest != [] ==> next == Entry(head, rest, 1))
      decreases |rest|
    {
      ghost var kept', rest', all' := VisitSpec(kept, rest, doomed, visited);
      visited := visited + [pos];
      Visit(pos, head, doomed, kept, rest, all, all');
      kept, rest, all := kept', rest', all';
      AfterVisit(head, kept, rest, all);
      pos := next;
      next := pos.next;
    }
    AfterVisit(head, kept, rest, all);
    assert kept + [] == kept;
  }

  /** The body of the loop: it may unlink the entry it is at. */
  method Visit(pos: Link, ghost head: Link, doomed: set<Link>, ghost kept: seq<Link>, ghost rest: seq<Link>, ghost all: seq<Link>,
               ghost all': seq<Link>)
    requires Ring(head, all) && all == kept + rest && rest != [] && pos == rest[0]
    requires all' == (if pos in doomed then kept else kept + [pos]) + rest[1..]
    modifies head, Links(all)
    ensures Ring(head, all')
  {
    if pos in doomed {
      assert RemoveAt(all, |kept|) == kept + rest[1..];
      Delete(pos, head, all, |kept|);
    } else {
      assert kept + [pos] + rest[1..] == all;
    }
  }

  lemma VisitSpec(kept: seq<Link>, rest: seq<Link>, doomed: set<Link>, visited: seq<Link>)
    returns (kept': seq<Link>, rest': seq<Link>, all': seq<Link>)
    requires rest != []
    ensures kept' == (if rest[0] in doomed then kept else kept + [rest[0]]) && rest' == rest[1..] && all' == kept' + rest'
    ensures kept + Kept(rest, doomed) == kept' + Kept(rest', doomed)
    ensures Links(all') <= Links(kept + rest)
    ensures visited + [rest[0]] + rest' == visited + rest
    ensures forall head :: Entry(head, rest, 1) == Entry(head, rest', 0)
  {
    kept', rest' := if rest[0] in doomed then kept else kept + [rest[0]], rest[1..];
    all' := kept' + rest';
    assert rest == [rest[0]] + rest[1..];
  }

  lemma AfterVisit(head: Link, kept: seq<Link>, rest: seq<Link>, all: seq<Link>)
    requires Ring(head, all) && all == kept + rest
    ensures rest != [] ==> rest[0].next == Entry(head, rest, 1) && rest[0] != head
  {
    if rest != [] {
      assert all[|kept|] == rest[0] && all[|kept|] in all;
      assert all[|kept|].next == Entry(head, all, |kept| + 1);
    }
  }

  // ----- runs on two lists

  ghost predicate TwoLists(h1: Link, s1: seq<Link>, h2: Link, s2: seq<Link>)
    reads h1, s1, h2, s2
  {
    Ring(h1, s1) && Ring(h2, s2) && Disjoint(h1, s1, h2, s2)
  }

  /** What can be done with entries and two lists. */
  datatype Step =
    | Insert(entry: Link, toFirst: bool, tail: bool)
    | Remove(entry: Link)
    | Replace(before: Link, entry: Link)
    | Move(entry: Link, toFirst: bool, tail: bool)
    | Rotate(first: bool)

  function Index(s: seq<Link>, x: Link): (i: nat)
    requires x in s
    ensures i < |s| && s[i] == x
  {
    if s[0] == x then 0 else 1 + Index(s[1..], x)
  }

  function Drop(s: seq<Link>, x: Link): seq<Link> {
    if x in s then RemoveAt(s, Index(s, x)) else s
  }

  function Exchange(s: seq<Link>, before: Link, x: Link): seq<Link> {
    if before in s then s[Index(s, before) := x] else s
  }

  /** A step, on the two sequences. */
  function After(s1: seq<Link>, s2: seq<Link>, step: Step): (seq<Link>, seq<Link>) {
    match step
    case Insert(x, true, tail) => (Extended(s1, x, tail), s2)
    case Insert(x, false, tail) => (s1, Extended(s2, x, tail))
    case Remove(x) => (Drop(s1, x), Drop(s2, x))
    case Replace(b, x) => (Exchange(s1, b, x), Exchange(s2, b, x))
    case Move(x, true, tail) => (Extended(Drop(s1, x), x, tail), Drop(s2, x))
    case Move(x, false, tail) => (Drop(s1, x), Extended(Drop(s2, x), x, tail))
    case Rotate(true) => (Rotated(s1), s2)
    case Rotate(false) => (s1, Rotated(s2))
  }

  predicate Listed(s1: seq<Link>, s2: seq<Link>, x: Link) {
    x in s1 || x in s2
  }

  /** Entries that go in are free, entries that move or go out are not. */
  ghost predicate Legal(s1: seq<Link>, s2: seq<Link>, step: Step, nodes: set<Link>) {
    match step
    case Insert(x, _, _) => x in nodes && !Listed(s1, s2, x)
    case Remove(x) => Listed(s1, s2, x)
    case Replace(b, x) => Listed(s1, s2, b) && x in nodes && !Listed(s1, s2, x)
    case Move(x, _, _) => Listed(s1, s2, x)
    case Rotate(_) => true
  }

  /** The entries a step puts in and takes out. */
  function Gained(step: Step): multiset<Link> {
    match step
    case Insert(x, _, _) => multiset{x}
    case Replace(_, x) => multiset{x}
    case _ => multiset{}
  }

  function Lost(step: Step): multiset<Link> {
    match step
    case Remove(x) => multiset{x}
    case Replace(b, _) => multiset{b}
    case _ => multiset{}
  }

  lemma DropOne(s: seq<Link>, x: Link)
    requires x in s
    ensures multiset(Drop(s, x)) + multiset{x} == multiset(s)
  {
    var i := Index(s, x);
    assert s == s[..i] + [x] + s[i + 1..];
  }

  lemma ExchangeOne(s: seq<Link>, before: Link, x: Link)
    requires before in s
    ensures multiset(Exchange(s, before, x)) + multiset{before} == multiset(s) + multiset{x}
  {
    var i := Index(s, before);
    assert s == s[..i] + [before] + s[i + 1..];
    assert Exchange(s, before, x) == s[..i] + [x] + s[i + 1..];
  }

  /** A step neither loses nor makes entries, but for those it puts in or takes out. */
  lemma StepConserves(s1: seq<Link>, s2: seq<Link>, step: Step, nodes: set<Link>)
    requires Legal(s1, s2, step, nodes) && forall x :: x in s1 ==> x !in s2
    ensures var (t1, t2) := After(s1, s2, step);
            multiset(t1) + multiset(t2) + Lost(step) == multiset(s1) + multiset(s2) + Gained(step)
  {
    match step
    case Insert(_, _, _) =>
    case Remove(x) =>
      if x in s1 { DropOne(s1, x); } else { DropOne(s2, x); }
    case Replace(b, x) =>
      if b in s1 { ExchangeOne(s1, b, x); } else { ExchangeOne(s2, b, x); }
    case Move(x, _, _) =>
      if x in s1 { DropOne(s1, x); } else { DropOne(s2, x); }
    case Rotate(_) =>
      RotatedKeepsNodes(s1);
      RotatedKeepsNodes(s2);
  }

  /** `list_move` or `list_move_tail` of an entry of one of two lists. */
  method MoveTo(entry: Link, h1: Link, h2: Link, toFirst: bool, tail: bool, ghost s1: seq<Link>, ghost s2: seq<Link>,
                ghost t1: seq<Link>, ghost t2: seq<Link>)
    requires TwoLists(h1, s1, h2, s2) && (entry in s1 || entry in s2)
    requires (t1, t2) == After(s1, s2, Move(entry, toFirst, tail))
    modifies h1, h2, Links(s1), Links(s2)
    ensures TwoLists(h1, t1, h2, t2)
  {
    ghost var a, b := Drop(s1, entry), Drop(s2, entry);
    Unlink(entry, h1, h2, s1, s2, a, b);
    if toFirst {
      AddApart(entry, h1, tail, a, h2, b);
    } else {
      AddApart(entry, h2, tail, b, h1, a);
    }
  }

  method Unlink(entry: Link, ghost h1: Link, ghost h2: Link, ghost s1: seq<Link>, ghost s2: seq<Link>,
                ghost a: seq<Link>, ghost b: seq<Link>)
    requires TwoLists(h1, s1, h2, s2) && (entry in s1 || entry in s2)
    requires a == Drop(s1, entry) && b == Drop(s2, entry)
    modifies h1, h2, Links(s1), Links(s2)
    ensures TwoLists(h1, a, h2, b) && entry !in a && entry !in b && entry != h1 && entry != h2
    ensures Links(a) <= Links(s1) && Links(b) <= Links(s2)
  {
    ghost var first := entry in s1;
    ghost var s := if first then s1 else s2;
    RemovedAt(s, Index(s, entry));
    DeleteApart(entry, if first then h1 else h2, s, Index(s, entry), if first then h2 else h1, if first then s2 else s1);
  }

  /** `list_rotate_left` does not disturb the other list. */
  method RotateApart(head: Link, ghost s: seq<Link>, ghost r: seq<Link>, ghost to: Link, ghost t: seq<Link>)
    requires Ring(head, s) && r == Rotated(s) && Ring(to, t) && Disjoint(head, s, to, t)
    modifies head, Links(s)
    ensures Ring(head, r) && Ring(to, t) && Disjoint(head, r, to, t)
  {
    RotatedKeepsNodes(s);
    assert forall x :: x in r ==> x in Links(r);
    assert forall k :: 0 <= k < |t| ==> t[k] in t;
    RotateLeft(head, s, r);
  }

  /** `list_rotate_left` of one of two lists. */
  method RotateOne(h1: Link, h2: Link, first: bool, ghost s1: seq<Link>, ghost s2: seq<Link>,
                   ghost t1: seq<Link>, ghost t2: seq<Link>)
    requires TwoLists(h1, s1, h2, s2)
    requires (t1, t2) == After(s1, s2, Rotate(first))
    modifies h1, h2, Links(s1), Links(s2)
    ensures TwoLists(h1, t1, h2, t2)
  {
    if first {
      RotateApart(h1, s1, t1, h2, s2);
    } else {
      RotateApart(h2, s2, t2, h1, s1);
    }
  }

  /** `list_add` or `list_add_tail` to one of two lists. */
  method InsertTo(entry: Link, h1: Link, h2: Link, toFirst: bool, tail: bool, ghost s1: seq<Link>, ghost s2: seq<Link>,
                  ghost t1: seq<Link>, ghost t2: seq<Link>)
    requires TwoLists(h1, s1, h2, s2) && !Listed(s1, s2, entry) && entry != h1 && entry != h2
    requires (t1, t2) == After(s1, s2, Insert(entry, toFirst, tail))
    modifies entry, h1, h2, Links(s1), Links(s2)
    ensures TwoLists(h1, t1, h2, t2)
  {
    if toFirst {
      AddApart(entry, h1, tail, s1, h2, s2);
    } else {
      AddApart(entry, h2, tail, s2, h1, s1);
    }
  }

  /** `list_replace` of an entry does not disturb the other list. */
  method ReplaceApart(before: Link, entry: Link, ghost head: Link, ghost s: seq<Link>, ghost i: nat,
                      ghost to: Link, ghost t: seq<Link>, ghost r: seq<Link>)
    requires Ring(head, s) && i < |s| && before == s[i] && r == s[i := entry] && Ring(to, t) && Disjoint(head, s, to, t)
    requires entry !in s && entry !in t && entry != head && entry != to
    modifies entry, head, Links(s)
    ensures Ring(head, r) && Ring(to, t) && Disjoint(head, r, to, t)
  {
    ExchangedApart(head, s, i, entry, r, to, t);
    assert forall k :: 0 <= k < |t| ==> t[k] in t;
    ReplaceEntry(before, entry, head, s, i, r);
  }

  lemma ExchangedApart(head: Link, s: seq<Link>, i: nat, entry: Link, r: seq<Link>, to: Link, t: seq<Link>)
    requires i < |s| && r == s[i := entry] && Disjoint(head, s, to, t) && entry !in t && entry != to
    ensures Disjoint(head, r, to, t)
  {
    forall x | x in r ensures x in s || x == entry {
      var k :| 0 <= k < |r| && r[k] == x;
      assert k == i || s[k] == x;
    }
  }

  /** `list_replace` of an entry of one of two lists. */
  method ReplaceIn(before: Link, entry: Link, ghost h1: Link, ghost h2: Link, ghost s1: seq<Link>, ghost s2: seq<Link>,
                   ghost t1: seq<Link>, ghost t2: seq<Link>)
    requires TwoLists(h1, s1, h2, s2) && Listed(s1, s2, before) && !Listed(s1, s2, entry) && entry != h1 && entry != h2
    requires (t1, t2) == After(s1, s2, Replace(before, entry))
    modifies entry, h1, h2, Links(s1), Links(s2)
    ensures TwoLists(h1, t1, h2, t2)
  {
    ghost var first := before in s1;
    ghost var s := if first then s1 else s2;
    ReplaceApart(before, entry, if first then h1 else h2, s, Index(s, before),
                 if first then h2 else h1, if first then s2 else s1, if first then t1 else t2);
  }

  ghost predicate AllLegal(s1: seq<Link>, s2: seq<Link>, steps: seq<Step>, nodes: set<Link>)
    decreases |steps|
  {
    steps == [] ||
    (Legal(s1, s2, steps[0], nodes) && var (t1, t2) := After(s1, s2, steps[0]); AllLegal(t1, t2, steps[1..], nodes))
  }

  function AfterAll(s1: seq<Link>, s2: seq<Link>, steps: seq<Step>): (seq<Link>, seq<Link>)
    decreases |steps|
  {
    if steps == [] then (s1, s2)
    else
      var (t1, t2) := After(s1, s2, steps[0]);
      AfterAll(t1, t2, steps[1..])
  }

  function AllGained(steps: seq<Step>): multiset<Link> {
    if steps == [] then multiset{} else Gained(steps[0]) + AllGained(steps[1..])
  }

  function AllLost(steps: seq<Step>): multiset<Link> {
    if steps == [] then multiset{} else Lost(steps[0]) + AllLost(steps[1..])
  }

  /** The two lists, all of whose entries are among the nodes, which the heads are not. */
  ghost predicate State(h1: Link, s1: seq<Link>, h2: Link, s2: seq<Link>, nodes: set<Link>)
    reads h1, s1, h2, s2
  {
    TwoLists(h1, s1, h2, s2) && Links(s1) <= nodes && Links(s2) <= nodes && h1 !in nodes && h2 !in nodes
  }

  method Perform(h1: Link, h2: Link, step: Step, ghost s1: seq<Link>, ghost s2: seq<Link>, ghost nodes: set<Link>)
    returns (ghost t1: seq<Link>, ghost t2: seq<Link>)
    requires State(h1, s1, h2, s2, nodes) && Legal(s1, s2, step, nodes)
    modifies h1, h2, nodes
    ensures (t1, t2) == After(s1, s2, step) && State(h1, t1, h2, t2, nodes)
    ensures multiset(t1) + multiset(t2) + Lost(step) == multiset(s1) + multiset(s2) + Gained(step)
  {
    t1, t2 := After(s1, s2, step).0, After(s1, s2, step).1;
    StepConserves(s1, s2, step, nodes);
    StepWithin(s1, s2, t1, t2, step, nodes);
    match step {
      case Insert(x, toFirst, tail) => InsertTo(x, h1, h2, toFirst, tail, s1, s2, t1, t2);
      case Remove(x) => Unlink(x, h1, h2, s1, s2, t1, t2);
      case Replace(b, x) => ReplaceIn(b, x, h1, h2, s1, s2, t1, t2);
      case Move(x, toFirst, tail) => MoveTo(x, h1, h2, toFirst, tail, s1, s2, t1, t2);
      case Rotate(first) => RotateOne(h1, h2, first, s1, s2, t1, t2);
    }
  }

  lemma StepWithin(s1: seq<Link>, s2: seq<Link>, t1: seq<Link>, t2: seq<Link>, step: Step, nodes: set<Link>)
    requires multiset(t1) + multiset(t2) + Lost(step) == multiset(s1) + multiset(s2) + Gained(step)
    requires Links(s1) <= nodes && Links(s2) <= nodes && Legal(s1, s2, step, nodes)
    ensures Links(t1) <= nodes && Links(t2) <= nodes
  {
    forall x | x in t1 || x in t2 ensures x in nodes {
      assert x in multiset(t1) + multiset(t2) + Lost(step);
      assert x in multiset(s1) + multiset(s2) + Gained(step);
    }
  }

  /**
   Every run of insertions, deletions, replacements, moves and rotations keeps both lists intact, does on
   the sequences what it should, and accounts for every entry.
   */
  method RunSteps(h1: Link, h2: Link, steps: seq<Step>, ghost s1: seq<Link>, ghost s2: seq<Link>, ghost nodes: set<Link>)
    returns (ghost t1: seq<Link>, ghost t2: seq<Link>)
    requires State(h1, s1, h2, s2, nodes) && AllLegal(s1, s2, steps, nodes)
    modifies h1, h2, nodes
    ensures (t1, t2) == AfterAll(s1, s2, steps) && State(h1, t1, h2, t2, nodes)
    ensures multiset(t1) + multiset(t2) + AllLost(steps) == multiset(s1) + multiset(s2) + AllGained(steps)
  {
    t1, t2 := s1, s2;
    var i := 0;
    ghost var all, lost := multiset(s1) + multiset(s2) + AllGained(steps), multiset{};
    assert steps[0..] == steps;
    while i < |steps|
      invariant 0 <= i <= |steps| && State(h1, t1, h2, t2, nodes) && AllLegal(t1, t2, steps[i..], nodes)
      invariant AfterAll(t1, t2, steps[i..]) == AfterAll(s1, s2, steps)
      invariant lost + AllLost(steps[i..]) == AllLost(steps)
      invariant multiset(t1) + multiset(t2) + lost + AllGained(steps[i..]) == all
    {
      assert steps[i..][1..] == steps[i + 1..];
      ghost var before := multiset(t1) + multiset(t2);
      t1, t2 := Perform(h1, h2, steps[i], t1, t2, nodes);
      Account(before, multiset(t1) + multiset(t2), lost, Lost(steps[i]), Gained(steps[i]), AllGained(steps[i + 1..]));
      lost := lost + Lost(steps[i]);
      i := i + 1;
    }
  }

  lemma Account(before: multiset<Link>, after: multiset<Link>, lost: multiset<Link>,
                out: multiset<Link>, gained: multiset<Link>, more: multiset<Link>)
    requires after + out == before + gained
    ensures after + (lost + out) + more == before + lost + (gained + more)
  {
    assert after + (lost + out) + more == after + out + lost + more;
  }
}
