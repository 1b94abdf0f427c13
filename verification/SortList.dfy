/**
 `sort_list` on the heap: a merge sort that relinks the nodes of a chain. It computes the sort on sequences,
 touches no other node and keeps every `prev` link but that of the first node.
 */
module SortList {
  import opened CString
  import opened Sorting
  import opened ChildList

  function NodeKey(cs: bool): Node -> string {
    (n: Node) => Key(n.name, cs)
  }

  predicate Apart(a: seq<Node>, b: seq<Node>) {
    forall x :: x in a ==> x !in b
  }

  /** `next` links within `d`; where the last one points does not matter. */
  ghost predicate Linked(d: seq<Node>)
    reads d
  {
    forall i :: 0 <= i < |d| - 1 ==> d[i].next == d[i + 1]
  }

  /** A list that can be sorted: its first `prev` link is not looked at. */
  ghost predicate List(s: seq<Node>)
    reads s
  {
    NoRepeats(s) && Chain(s) && Back(s)
  }

  // ----- taking lists apart and putting them together

  lemma TailList(s: seq<Node>)
    requires List(s) && s != []
    ensures List(s[1..]) && s[0] !in s[1..] && s[0].next == NodeAt(s[1..], 0)
  {
    var t := s[1..];
    forall i | 0 <= i < |t| ensures t[i].next == NodeAt(t, i + 1) && t[i] == s[i + 1] {
      assert s[i + 1].next == NodeAt(s, i + 2);
    }
    forall i | 0 < i < |t| ensures t[i].prev == t[i - 1] {
      assert s[i + 1].prev == s[i];
    }
  }

  /** What has been merged, and what is left of the two halves. */
  ghost predicate Merging(d: seq<Node>, a: seq<Node>, b: seq<Node>)
    reads d, a, b
  {
    && NoRepeats(d) && Linked(d) && Back(d)
    && List(a) && List(b)
    && Apart(d, a) && Apart(d, b) && Apart(a, b)
  }

  /** One step of the merge: the first node of `a` goes to the end of `d`. */
  method Take(tail: Node?, smaller: Node, ghost d: seq<Node>, ghost a: seq<Node>, ghost b: seq<Node>,
              ghost d': seq<Node>, ghost a': seq<Node>)
    requires Merging(d, a, b) && a != [] && smaller == a[0] && d' == d + [smaller] && a' == a[1..]
    requires tail == NodeAt(d, |d| - 1)
    modifies d`next, a`prev
    ensures Merging(d', a', b)
    ensures smaller.next == NodeAt(a', 0)
    ensures d == [] ==> a[0].prev == old(a[0].prev)
  {
    TailList(a);
    TakeApart(d, a, b);
    assert a[0] in a;
    if tail != null {
      assert d[|d| - 1] in d;
      tail.next := smaller;
      smaller.prev := tail;
    }
    Longer(d, smaller);
  }

  lemma TakeApart(d: seq<Node>, a: seq<Node>, b: seq<Node>)
    requires a != [] && NoRepeats(a) && Apart(d, a) && Apart(d, b) && Apart(a, b)
    ensures Apart(d + [a[0]], a[1..]) && Apart(d + [a[0]], b) && Apart(a[1..], b) && a[0] !in d
  {
    assert forall x :: x in a[1..] ==> x in a;
    assert a[0] in a && a[0] !in a[1..];
  }

  lemma Longer(d: seq<Node>, x: Node)
    requires NoRepeats(d) && x !in d && Linked(d) && Back(d)
    requires d != [] ==> d[|d| - 1].next == x && x.prev == d[|d| - 1]
    ensures NoRepeats(d + [x]) && Linked(d + [x]) && Back(d + [x])
  {
    var r := d + [x];
    forall i | 0 <= i < |r| - 1 ensures r[i].next == r[i + 1] {
      assert r[i] == d[i];
    }
  }

  /** What is left of one half goes to the end. */
  method Join(tail: Node, rest: Node, ghost d: seq<Node>, ghost a: seq<Node>)
    requires Merging(d, a, []) && d != [] && a != [] && tail == d[|d| - 1] && rest == a[0]
    modifies d`next, a`prev
    ensures List(d + a) && d[0].prev == old(d[0].prev)
  {
    assert tail in d && rest in a && d[0] in d;
    ApartConcat(d, a);
    tail.next := rest;
    rest.prev := tail;
    Joined(d, a);
  }

  lemma Joined(d: seq<Node>, a: seq<Node>)
    requires Linked(d) && Back(d) && Chain(a) && Back(a) && d != [] && a != []
    requires d[|d| - 1].next == a[0] && a[0].prev == d[|d| - 1]
    ensures Chain(d + a) && Back(d + a)
  {
    var r := d + a;
    forall i | 0 <= i < |r| ensures r[i].next == NodeAt(r, i + 1) {
      if i >= |d| {
        assert r[i] == a[i - |d|] && a[i - |d|].next == NodeAt(a, i - |d| + 1);
      } else {
        assert r[i] == d[i];
      }
    }
    forall i | 0 < i < |r| ensures r[i].prev == r[i - 1] {
      if i >= |d| {
        assert r[i] == a[i - |d|];
      } else {
        assert r[i] == d[i];
      }
    }
  }

  lemma ApartConcat(a: seq<Node>, b: seq<Node>)
    requires NoRepeats(a) && NoRepeats(b) && Apart(a, b)
    ensures NoRepeats(a + b)
  {
    var r := a + b;
    forall i, j | 0 <= i < j < |r| ensures r[i] != r[j] {
      if i < |a| <= j {
        assert r[i] in a && r[j] in b;
      }
    }
  }

  lemma SplitApart(s: seq<Node>, m: nat)
    requires NoRepeats(s) && m <= |s|
    ensures NoRepeats(s[..m]) && NoRepeats(s[m..]) && Apart(s[..m], s[m..])
  {
  }

  /** The merge loop and what follows it. */
  method Merge(list1: Node, list2: Node, cs: bool, ghost s1: seq<Node>, ghost s2: seq<Node>, ghost r: seq<Node>,
               ghost pool: set<Node>)
    returns (result: Node)
    requires List(s1) && List(s2) && Apart(s1, s2)
    requires s1 != [] && s2 != [] && list1 == s1[0] && list2 == s2[0]
    requires r == MergeLists(s1, s2, NodeKey(cs)) && Within([], s1, s2, pool)
    modifies pool
    ensures List(r) && result == r[0] && r[0].prev == old(r[0].prev)
  {
    var first: Node?, second: Node? := list1, list2;
    var tail: Node?, head: Node? := null, null;
    ghost var d: seq<Node>, a, b := [], s1, s2;
    assert [] + r == r;
    while first != null && second != null
      invariant Merged(head, tail, first, second, d, a, b, r, cs, pool) && r[0].prev == old(r[0].prev)
      decreases |a| + |b|
    {
      head, tail, first, second, d, a, b := MergeRound(head, tail, first, second, cs, d, a, b, r, pool);
    }
    Append(tail, first, second, d, a, b, r, pool);
    result := head;
  }

  /** Where the merge stands: the pointers, what they point to, and what is still to come. */
  ghost predicate Merged(head: Node?, tail: Node?, first: Node?, second: Node?,
                         d: seq<Node>, a: seq<Node>, b: seq<Node>, r: seq<Node>, cs: bool, pool: set<Node>)
    reads d, a, b
  {
    && Merging(d, a, b) && Within(d, a, b, pool)
    && first == NodeAt(a, 0) && second == NodeAt(b, 0)
    && head == NodeAt(d, 0) && tail == NodeAt(d, |d| - 1)
    && d + MergeLists(a, b, NodeKey(cs)) == r && r != []
    && (d == [] ==> a != [] && b != []) && (a != [] || b != [])
  }

  method MergeRound(head: Node?, tail: Node?, list1: Node, list2: Node, cs: bool,
                    ghost d: seq<Node>, ghost a: seq<Node>, ghost b: seq<Node>, ghost r: seq<Node>, ghost pool: set<Node>)
    returns (head': Node?, tail': Node?, first: Node?, second: Node?,
             ghost d': seq<Node>, ghost a': seq<Node>, ghost b': seq<Node>)
    requires Merged(head, tail, list1, list2, d, a, b, r, cs, pool)
    modifies pool
    ensures Merged(head', tail', first, second, d', a', b', r, cs, pool) && r[0].prev == old(r[0].prev)
    ensures |a'| + |b'| == |a| + |b| - 1
  {
    ghost var q, q' := MergeLists(a, b, NodeKey(cs)), [];
    assert r[0] == if d == [] then q[0] else d[0];
    head' := head;
    tail', first, second, a', b', q' := MergeOne(tail, list1, list2, cs, d, a, b, q, pool);
    if head == null { head' := tail'; }
    d' := d + [tail'];
  }

  /** One round of the loop. */
  method MergeOne(tail: Node?, list1: Node, list2: Node, cs: bool, ghost d: seq<Node>, ghost a: seq<Node>, ghost b: seq<Node>,
                  ghost q: seq<Node>, ghost pool: set<Node>)
    returns (smaller: Node, first: Node?, second: Node?, ghost a': seq<Node>, ghost b': seq<Node>, ghost q': seq<Node>)
    requires Merging(d, a, b) && a != [] && b != [] && list1 == a[0] && list2 == b[0]
    requires tail == NodeAt(d, |d| - 1) && Within(d, a, b, pool) && q == MergeLists(a, b, NodeKey(cs))
    modifies pool
    ensures Merging(d + [smaller], a', b') && Within(d + [smaller], a', b', pool)
    ensures first == NodeAt(a', 0) && second == NodeAt(b', 0)
    ensures |a'| + |b'| == |a| + |b| - 1
    ensures d != [] ==> d[0].prev == old(d[0].prev)
    ensures d == [] && q != [] ==> q[0].prev == old(q[0].prev)
    ensures q' == MergeLists(a', b', NodeKey(cs)) && d + q == d + [smaller] + q'
  {
    MergeStep(d, a, b, cs);
    assert d != [] ==> d[0] in d;
    first, second, a', b' := list1, list2, a, b;
    if Less(Key(list1.name, cs), Key(list2.name, cs)) {
      smaller := list1;
      a' := a[1..];
      Take(tail, smaller, d, a, b, d + [smaller], a');
      first := smaller.next;
    } else {
      smaller := list2;
      b' := b[1..];
      Take(tail, smaller, d, b, a, d + [smaller], b');
      second := smaller.next;
    }
    q' := MergeLists(a', b', NodeKey(cs));
  }

  /** After the loop: the half that is left is appended whole. */
  method Append(tail: Node?, first: Node?, second: Node?, ghost d: seq<Node>, ghost a: seq<Node>, ghost b: seq<Node>,
                ghost r: seq<Node>, ghost pool: set<Node>)
    requires Merging(d, a, b) && d != [] && tail == d[|d| - 1] && Within(d, a, b, pool)
    requires first == NodeAt(a, 0) && second == NodeAt(b, 0) && (a == [] <==> b != [])
    requires r == d + (if a != [] then a else b)
    modifies pool
    ensures List(r) && d[0].prev == old(d[0].prev)
  {
    if first != null {
      Join(tail, first, d, a);
    }
    if second != null {
      Join(tail, second, d, b);
    }
  }

  /** Nothing outside the pool is ever reached. */
  ghost predicate Within(d: seq<Node>, a: seq<Node>, b: seq<Node>, pool: set<Node>) {
    && (forall x :: x in d ==> x in pool)
    && (forall x :: x in a ==> x in pool)
    && (forall x :: x in b ==> x in pool)
  }

  lemma MergeStep(d: seq<Node>, a: seq<Node>, b: seq<Node>, cs: bool)
    requires a != [] && b != []
    ensures Less(Key(a[0].name, cs), Key(b[0].name, cs)) ==>
      d + MergeLists(a, b, NodeKey(cs)) == d + [a[0]] + MergeLists(a[1..], b, NodeKey(cs))
    ensures !Less(Key(a[0].name, cs), Key(b[0].name, cs)) ==>
      d + MergeLists(a, b, NodeKey(cs)) == d + [b[0]] + MergeLists(a, b[1..], NodeKey(cs))
  {
  }

  // ----- the sort

  /** The test for a list that is sorted already. */
  method IsAscending(list: Node, cs: bool, ghost s: seq<Node>) returns (yes: bool)
    requires List(s) && s != [] && list == s[0]
    ensures yes <==> Ascending(s, NodeKey(cs))
  {
    var current := list;
    ghost var i := 0;
    while current.next != null && Less(Key(current.name, cs), Key(current.next.name, cs))
      invariant 0 <= i < |s| && current == s[i]
      invariant forall k :: 0 <= k < i ==> Less(NodeKey(cs)(s[k]), NodeKey(cs)(s[k + 1]))
      decreases |s| - i
    {
      assert s[i].next == NodeAt(s, i + 1);
      current := current.next;
      i := i + 1;
    }
    assert s[i].next == NodeAt(s, i + 1);
    yes := current.next == null;
    assert !yes ==> !Less(NodeKey(cs)(s[i]), NodeKey(cs)(s[i + 1]));
  }

  /** Two pointers, one twice as fast: the second half starts after the first, which is not the smaller one. */
  method FindMiddle(list: Node, ghost s: seq<Node>) returns (second: Node?)
    requires List(s) && |s| >= 2 && list == s[0]
    ensures second == s[Middle(|s|)]
  {
    var current: Node? := list;
    second := list;
    ghost var i, j := 0, 0;
    while current != null
      invariant 0 <= i <= |s| && 0 <= j <= |s|
      invariant second == NodeAt(s, i) && current == NodeAt(s, j)
      invariant j == 2 * i || (j == |s| && j == 2 * i - 1)
      decreases |s| - j
    {
      assert s[i].next == NodeAt(s, i + 1) && s[j].next == NodeAt(s, j + 1);
      second := second.next;
      current := current.next;
      i, j := i + 1, j + 1;
      if current != null {
        assert s[j].next == NodeAt(s, j + 1);
        current := current.next;
        j := j + 1;
      }
    }
  }

  /** Cutting a list in two. */
  method Cut(second: Node, ghost s: seq<Node>, ghost m: nat)
    requires List(s) && 0 < m < |s| && second == s[m]
    modifies s
    ensures List(s[..m]) && List(s[m..]) && Apart(s[..m], s[m..])
    ensures s[m].prev == null && s[0].prev == old(s[0].prev)
  {
    assert s[m].prev == s[m - 1];
    if second.prev != null {
      second.prev.next := null;
      second.prev := null;
    }
    SplitApart(s, m);
    CutLists(s, m);
  }

  lemma CutLists(s: seq<Node>, m: nat)
    requires 0 < m < |s|
    requires forall i :: 0 <= i < |s| ==> s[i].next == if i == m - 1 then null else NodeAt(s, i + 1)
    requires forall i :: 0 < i < |s| && i != m ==> s[i].prev == s[i - 1]
    ensures Chain(s[..m]) && Back(s[..m]) && Chain(s[m..]) && Back(s[m..])
  {
    var a, b := s[..m], s[m..];
    forall i | 0 <= i < |a| ensures a[i].next == NodeAt(a, i + 1) {
      assert a[i] == s[i];
    }
    forall i | 0 <= i < |b| ensures b[i].next == NodeAt(b, i + 1) {
      assert b[i] == s[m + i];
    }
    forall i | 0 < i < |b| ensures b[i].prev == b[i - 1] {
      assert b[i] == s[m + i];
    }
  }

  /** The nodes of a list, as a frame. */
  ghost function NodesOf(s: seq<Node>): (r: set<Node>)
    ensures forall x :: x in r ==> x in s
    ensures forall x :: x in s ==> x in r
  {
    set x | x in s
  }

  lemma SortKeepsNodes(s: seq<Node>, cs: bool, r: seq<Node>)
    requires r == Sort(s, NodeKey(cs))
    ensures |r| == |s| && forall x :: x in r <==> x in s
  {
    SortPermutes(s, NodeKey(cs));
    SameMembers(r, s);
  }

  /** `sort_list`. No node outside the list is touched. */
  method SortNodes(list: Node?, cs: bool, ghost s: seq<Node>, ghost r: seq<Node>) returns (result: Node?)
    requires List(s) && list == NodeAt(s, 0)
    requires r == Sort(s, NodeKey(cs))
    modifies NodesOf(s)
    ensures List(r) && result == NodeAt(r, 0)
    ensures s != [] ==> r[0].prev == if r[0] == s[0] then old(s[0].prev) else null
    decreases |s|, 2
  {
    result := list;
    if list == null || list.next == null { return; }
    var sorted := IsAscending(list, cs, s);
    if sorted { return; }
    var second := FindMiddle(list, s);
    result := SortHalves(list, second, cs, s, r);
  }

  method SortHalves(list: Node, middle: Node, cs: bool, ghost s: seq<Node>, ghost r: seq<Node>) returns (result: Node?)
    requires List(s) && |s| >= 2 && list == s[0] && middle == s[Middle(|s|)]
    requires !Ascending(s, NodeKey(cs)) && r == Sort(s, NodeKey(cs))
    modifies NodesOf(s)
    ensures List(r) && result == NodeAt(r, 0)
    ensures r[0].prev == if r[0] == s[0] then old(s[0].prev) else null
    decreases |s|, 1
  {
    ghost var m := Middle(|s|);
    ghost var a, b := s[..m], s[m..];
    ghost var ra, rb := Sort(a, NodeKey(cs)), Sort(b, NodeKey(cs));
    assert forall x :: x in a ==> x in s;
    assert forall x :: x in b ==> x in s;
    SortedHead(a, b, cs, ra, rb, r);
    Cut(middle, s, m);
    var first, second := SortBoth(list, middle, cs, a, b, ra, rb);
    result := Merge(first, second, cs, ra, rb, r, NodesOf(s));
  }

  lemma SortedHead(a: seq<Node>, b: seq<Node>, cs: bool, ra: seq<Node>, rb: seq<Node>, r: seq<Node>)
    requires a != [] && b != [] && ra == Sort(a, NodeKey(cs)) && rb == Sort(b, NodeKey(cs))
    requires r == MergeLists(ra, rb, NodeKey(cs))
    ensures r[0] == ra[0] || (r[0] == rb[0] && rb[0] in b)
  {
    SortKeepsNodes(b, cs, rb);
  }

  /** The two recursive calls: neither disturbs the other half. */
  method SortBoth(list1: Node, list2: Node, cs: bool, ghost a: seq<Node>, ghost b: seq<Node>,
                  ghost ra: seq<Node>, ghost rb: seq<Node>)
    returns (first: Node, second: Node)
    requires List(a) && List(b) && Apart(a, b) && a != [] && b != [] && b[0].prev == null && list1 == a[0] && list2 == b[0]
    requires ra == Sort(a, NodeKey(cs)) && rb == Sort(b, NodeKey(cs))
    modifies NodesOf(a), NodesOf(b)
    ensures |ra| == |a| && |rb| == |b| && List(ra) && List(rb) && first == ra[0] && second == rb[0]
    ensures Apart(ra, rb) && Within([], ra, rb, NodesOf(a) + NodesOf(b))
    ensures ra[0].prev == if ra[0] == a[0] then old(a[0].prev) else null
    ensures rb[0].prev == null
    decreases |a| + |b|, 0
  {
    SortedApart(a, b, cs, ra, rb);
    first := SortKeeping(list1, cs, a, ra, b);
    second := SortKeeping(list2, cs, b, rb, ra);
  }

  lemma SortedApart(a: seq<Node>, b: seq<Node>, cs: bool, ra: seq<Node>, rb: seq<Node>)
    requires Apart(a, b) && ra == Sort(a, NodeKey(cs)) && rb == Sort(b, NodeKey(cs))
    ensures |ra| == |a| && |rb| == |b| && Apart(ra, rb) && Apart(b, ra)
    ensures Within([], ra, rb, NodesOf(a) + NodesOf(b))
    ensures forall x :: x in ra ==> x in a
  {
    SortKeepsNodes(a, cs, ra);
    SortKeepsNodes(b, cs, rb);
  }

  /** Sorting one list leaves another alone. */
  method SortKeeping(list: Node, cs: bool, ghost s: seq<Node>, ghost r: seq<Node>, ghost other: seq<Node>)
    returns (result: Node)
    requires List(s) && s != [] && list == s[0] && r == Sort(s, NodeKey(cs))
    requires List(other) && other != [] && Apart(s, other)
    modifies NodesOf(s)
    ensures |r| == |s| && List(r) && result == r[0]
    ensures r[0].prev == if r[0] == s[0] then old(s[0].prev) else null
    ensures List(other) && other[0].prev == old(other[0].prev)
    decreases |s|, 3
  {
    assert other[0] in other;
    result := SortNodes(list, cs, s, r);
  }

  /**
   `sort_object`. The children are the same nodes in key order, but the first `prev` link survives only if
   the first node stays first: otherwise it is null.
   */
  method SortObject(parent: Node, cs: bool, ghost s: seq<Node>) returns (ghost r: seq<Node>)
    requires Children(parent, s)
    modifies parent, NodesOf(s)
    ensures multiset(r) == multiset(s) && Sorted(r, NodeKey(cs)) && r == Sort(s, NodeKey(cs))
    ensures parent.child == NodeAt(r, 0) && List(r)
    ensures s != [] ==> r[0].prev == if r[0] == s[0] then s[|s| - 1] else null
    ensures Children(parent, r) <==> s == [] || (r[0] == s[0] && r[|r| - 1] == s[|s| - 1])
  {
    r := Sort(s, NodeKey(cs));
    SortKeepsNodes(s, cs, r);
    SortChildren(parent, cs, s, r);
    SortCorrect(s, NodeKey(cs));
    ChildrenIff(parent, s, r);
  }

  method SortChildren(parent: Node, cs: bool, ghost s: seq<Node>, ghost r: seq<Node>)
    requires Children(parent, s) && r == Sort(s, NodeKey(cs))
    modifies parent, NodesOf(s)
    ensures parent.child == NodeAt(r, 0) && List(r)
    ensures s != [] ==> r[0].prev == if r[0] == s[0] then old(s[0].prev) else null
  {
    SortKeepsNodes(s, cs, r);
    var sorted := SortNodes(parent.child, cs, s, r);
    parent.child := sorted;
  }

  lemma ChildrenIff(parent: Node, s: seq<Node>, r: seq<Node>)
    requires |r| == |s| && parent !in r && parent.child == NodeAt(r, 0) && List(r)
    requires s != [] ==> r[0].prev == if r[0] == s[0] then s[|s| - 1] else null
    ensures Children(parent, r) <==> s == [] || (r[0] == s[0] && r[|r| - 1] == s[|s| - 1])
  {
  }

  /**
   An item appended to an object after a sort. It arrives, and nothing else is lost, if and only if first and
   last node kept their places. If another node is first now, the item is lost; otherwise the item follows
   the node that was last, and the nodes sorted behind that one are lost.
   */
  method AppendAfterSort(parent: Node, item: Node, cs: bool, ghost s: seq<Node>) returns (ghost r: seq<Node>, ghost k: int)
    requires Children(parent, s) && Loose(item, parent, s)
    modifies parent, item, NodesOf(s)
    ensures r == Sort(s, NodeKey(cs))
    ensures Children(parent, r + [item]) <==> s == [] || (r[0] == s[0] && r[|r| - 1] == s[|s| - 1])
    ensures s != [] && r[0] != s[0] ==> TailAt(parent, r, -1)
    ensures s != [] && r[0] == s[0] ==> 0 <= k < |r| && r[k] == s[|s| - 1] && Children(parent, r[..k + 1] + [item])
  {
    r := SortObject(parent, cs, s);
    SortKeepsNodes(s, cs, r);
    k := OldTail(s, r);
    AddItem(parent, item, r, k);
    AppendOutcome(parent, r, k, item);
  }

  /** Where the node that was last is now. */
  lemma OldTail(s: seq<Node>, r: seq<Node>) returns (k: int)
    requires |r| == |s| && forall x :: x in s ==> x in r
    ensures -1 <= k < |r|
    ensures k == -1 <==> s == [] || r[0] != s[0]
    ensures k >= 0 ==> r[k] == s[|s| - 1]
  {
    k := -1;
    if s != [] && r[0] == s[0] {
      assert s[|s| - 1] in r;
      k :| 0 <= k < |r| && r[k] == s[|s| - 1];
    }
  }

  /** The children after the append are `r + [item]` only if the link was right. */
  lemma AppendOutcome(parent: Node, r: seq<Node>, k: int, item: Node)
    requires -1 <= k < |r| && item !in r && NoRepeats(r)
    requires r == [] || k >= 0 ==> Children(parent, Appended(r, k, item))
    requires r != [] && k == -1 ==> TailAt(parent, r, k)
    ensures Children(parent, r + [item]) <==> r == [] || k == |r| - 1
  {
    AppendedAt(r, k, item);
    if r != [] && k != |r| - 1 && Children(parent, r + [item]) {
      ChainUnique(Appended(r, k, item), r + [item]);
      assert false;
    }
  }
}
