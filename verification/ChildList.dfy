/**
 The child list of a tree node: a chain of `next` links that ends with a null, `prev` links the other way,
 and the trick that the `prev` of the first node is the last one. Each operation refines one on sequences.
 */
module ChildList {
  import opened Sequences

  class Node {
    var next: Node?
    var prev: Node?
    var child: Node?
    const name: string

    constructor (name: string)
      ensures next == null && prev == null && child == null && this.name == name
    {
      this.next, this.prev, this.child, this.name := null, null, null, name;
    }
  }

  predicate NoRepeats(s: seq<Node>) {
    forall i, j :: 0 <= i < j < |s| ==> s[i] != s[j]
  }

  /** The node at `i`, or null. */
  function NodeAt(s: seq<Node>, i: int): Node? {
    if 0 <= i < |s| then s[i] else null
  }

  /** `next` links run through `s` to a null. */
  ghost predicate Chain(s: seq<Node>)
    reads s
  {
    forall i :: 0 <= i < |s| ==> s[i].next == NodeAt(s, i + 1)
  }

  /** The `prev` links of all but the first node. */
  ghost predicate Back(s: seq<Node>)
    reads s
  {
    forall i :: 0 < i < |s| ==> s[i].prev == s[i - 1]
  }

  /** The children of `parent` are `s`. */
  ghost predicate Children(parent: Node, s: seq<Node>)
    reads parent, s
  {
    && parent !in s && NoRepeats(s)
    && parent.child == NodeAt(s, 0)
    && Chain(s) && Back(s)
    && (s != [] ==> s[0].prev == s[|s| - 1])
  }

  /** The node a chain starts with determines it. */
  lemma {:induction false} ChainUnique(a: seq<Node>, b: seq<Node>)
    requires Chain(a) && Chain(b) && NodeAt(a, 0) == NodeAt(b, 0)
    ensures a == b
    decreases |a|
  {
    if a != [] {
      assert a[0].next == NodeAt(a, 1) && b[0].next == NodeAt(b, 1);
      TailChain(a);
      TailChain(b);
      ChainUnique(a[1..], b[1..]);
      assert a == [a[0]] + a[1..] && b == [b[0]] + b[1..];
    }
  }

  lemma TailChain(a: seq<Node>)
    requires Chain(a) && a != []
    ensures Chain(a[1..]) && NodeAt(a[1..], 0) == NodeAt(a, 1)
  {
    var t := a[1..];
    forall i | 0 <= i < |t| ensures t[i].next == NodeAt(t, i + 1) {
      assert t[i] == a[i + 1] && a[i + 1].next == NodeAt(a, i + 2);
    }
  }

  /** The walk of `get_array_item`. */
  method ItemAt(parent: Node, which: nat, ghost s: seq<Node>) returns (item: Node?)
    requires Children(parent, s)
    ensures item == NodeAt(s, which)
  {
    item := parent.child;
    var left := which;
    ghost var i := 0;
    while item != null && left > 0
      invariant i + left == which && left >= 0 && 0 <= i <= |s| && item == NodeAt(s, i)
    {
      assert s[i].next == NodeAt(s, i + 1);
      item := item.next;
      left := left - 1;
      i := i + 1;
    }
  }

  /** A node that is in no list. Appending relies on its `next` being null already. */
  ghost predicate Loose(item: Node, parent: Node, s: seq<Node>)
    reads item
  {
    item !in s && item != parent && item.next == null
  }

  /** The children of `parent` are `s`, but the first `prev` link leads to the node at `k`, or is null. */
  ghost predicate TailAt(parent: Node, s: seq<Node>, k: int)
    reads parent, s
  {
    && parent !in s && NoRepeats(s) && parent.child == NodeAt(s, 0) && Chain(s) && Back(s)
    && -1 <= k < |s| && (s != [] ==> s[0].prev == NodeAt(s, k))
  }

  /** What appending makes of the list: the item follows the node the first `prev` link leads to. */
  function Appended(s: seq<Node>, k: int, item: Node): seq<Node>
    requires -1 <= k < |s|
  {
    if s == [] then [item] else if k == -1 then s else s[..k + 1] + [item]
  }

  /** `add_item_to_array`. Without the link the item is dropped, with a wrong one the nodes after it are. */
  method AddItem(parent: Node, item: Node, ghost s: seq<Node>, ghost k: int)
    requires TailAt(parent, s, k) && Loose(item, parent, s)
    modifies parent, item, s
    ensures s == [] || k >= 0 ==> Children(parent, Appended(s, k, item))
    ensures s != [] && k == -1 ==> TailAt(parent, s, k)
  {
    ghost var r := Appended(s, k, item);
    AppendedAt(s, k, item);
    var child := parent.child;
    if child == null {
      parent.child := item;
      item.prev := item;
      item.next := null;
    } else {
      var last := child.prev;
      if last != null {
        assert s[k] == last;
        last.next := item;
        item.prev := last;
        child.prev := item;
        AppendedLinks(parent, s, k, item);
      }
    }
  }

  lemma AppendedAt(s: seq<Node>, k: int, item: Node)
    requires -1 <= k < |s| && item !in s && NoRepeats(s)
    ensures var r := Appended(s, k, item);
      && NoRepeats(r) && (forall x :: x in r ==> x in s || x == item)
      && (k >= 0 ==> |r| == k + 2 && r[k + 1] == item && forall i :: 0 <= i <= k ==> r[i] == s[i])
      && (k == |s| - 1 ==> r == s + [item])
  {
  }

  lemma AppendedLinks(parent: Node, s: seq<Node>, k: int, item: Node)
    requires 0 <= k < |s| && item !in s && item != parent && parent !in s && NoRepeats(s) && parent.child == s[0]
    requires forall i :: 0 <= i < k ==> s[i].next == NodeAt(s, i + 1)
    requires forall i :: 0 < i <= k ==> s[i].prev == NodeAt(s, i - 1)
    requires s[k].next == item && item.prev == s[k] && item.next == null && s[0].prev == item
    ensures Children(parent, Appended(s, k, item))
  {
    AppendedAt(s, k, item);
    var r := Appended(s, k, item);
    forall i | 0 <= i < |r| ensures r[i].next == NodeAt(r, i + 1) {
      if i <= k { assert r[i] == s[i]; }
    }
    forall i | 0 < i < |r| ensures r[i].prev == r[i - 1] {
      if i <= k { assert r[i] == s[i] && s[i].prev == NodeAt(s, i - 1); }
    }
  }

  /** What a child list says about the node at `i` and its neighbours. */
  lemma Neighbours(parent: Node, s: seq<Node>, i: nat)
    requires Children(parent, s) && i < |s|
    ensures s[i].next == NodeAt(s, i + 1)
    ensures s[i].prev == if i == 0 then s[|s| - 1] else s[i - 1]
    ensures s[i] == parent.child <==> i == 0
    ensures s[i] != parent
  {
    assert i > 0 ==> s[0] != s[i];
    assert s[i] in s;
  }

  /** `cJSON_DetachItemViaPointer` and the code after the walk in `detach_item_from_array`. */
  method Detach(parent: Node, item: Node, ghost i: nat, ghost s: seq<Node>)
    requires Children(parent, s) && i < |s| && s[i] == item
    modifies parent, s
    ensures Children(parent, RemoveAt(s, i))
    ensures item.next == null && item.prev == null
  {
    Neighbours(parent, s, i);
    Neighbours(parent, s, 0);
    var before, after := item.prev, item.next;
    if item != parent.child {
      before.next := after;
    }
    if after != null {
      after.prev := before;
    }
    if item == parent.child {
      parent.child := after;
    } else if after == null {
      parent.child.prev := before;
    }
    item.prev, item.next := null, null;
    Detached(parent, s, i);
  }

  lemma Detached(parent: Node, s: seq<Node>, i: nat)
    requires parent !in s && NoRepeats(s) && i < |s|
    requires forall k :: 0 <= k < |s| && k != i ==> s[k].next == (if k + 1 == i then NodeAt(s, k + 2) else NodeAt(s, k + 1))
    requires forall k :: 0 < k < |s| && k != i && !(k == 1 && i == 0) ==> s[k].prev == (if k - 1 == i then NodeAt(s, k - 2) else NodeAt(s, k - 1))
    requires parent.child == (if i == 0 then NodeAt(s, 1) else NodeAt(s, 0))
    requires |s| > 1 ==>
      (if i == 0 then s[1] else s[0]).prev == if i == |s| - 1 then s[|s| - 2] else s[|s| - 1]
    ensures Children(parent, RemoveAt(s, i))
  {
    DetachedDistinct(s, i);
    DetachedEnds(s, i);
    DetachedNext(s, i);
    DetachedPrev(s, i);
  }

  lemma DetachedEnds(s: seq<Node>, i: nat)
    requires i < |s|
    ensures NodeAt(RemoveAt(s, i), 0) == if i == 0 then NodeAt(s, 1) else NodeAt(s, 0)
    ensures |s| > 1 ==> RemoveAt(s, i)[0] == if i == 0 then s[1] else s[0]
    ensures |s| > 1 ==> RemoveAt(s, i)[|s| - 2] == if i == |s| - 1 then s[|s| - 2] else s[|s| - 1]
  {
  }

  lemma DetachedNext(s: seq<Node>, i: nat)
    requires i < |s|
    requires forall k :: 0 <= k < |s| && k != i ==> s[k].next == (if k + 1 == i then NodeAt(s, k + 2) else NodeAt(s, k + 1))
    ensures Chain(RemoveAt(s, i))
  {
    var r := RemoveAt(s, i);
    forall k | 0 <= k < |r| ensures r[k].next == NodeAt(r, k + 1) {
      if k < i {
        assert r[k] == s[k] && s[k].next == (if k + 1 == i then NodeAt(s, k + 2) else NodeAt(s, k + 1));
      } else {
        assert r[k] == s[k + 1] && s[k + 1].next == NodeAt(s, k + 2);
      }
    }
  }

  lemma DetachedPrev(s: seq<Node>, i: nat)
    requires i < |s|
    requires forall k :: 0 < k < |s| && k != i && !(k == 1 && i == 0) ==> s[k].prev == (if k - 1 == i then NodeAt(s, k - 2) else NodeAt(s, k - 1))
    ensures Back(RemoveAt(s, i))
  {
    var r := RemoveAt(s, i);
    forall k | 0 < k < |r| ensures r[k].prev == r[k - 1] {
      if k < i {
        assert r[k] == s[k] && s[k].prev == NodeAt(s, k - 1);
      } else {
        assert r[k] == s[k + 1] && s[k + 1].prev == if k == i then NodeAt(s, k - 1) else NodeAt(s, k);
      }
    }
  }

  lemma DetachedDistinct(s: seq<Node>, i: nat)
    requires i < |s| && NoRepeats(s)
    ensures NoRepeats(RemoveAt(s, i))
    ensures forall x :: x in RemoveAt(s, i) ==> x in s
    ensures s[i] !in RemoveAt(s, i)
  {
    var r := RemoveAt(s, i);
    forall k | 0 <= k < |r| ensures r[k] in s && r[k] != s[i] && r[k] == s[if k < i then k else k + 1] {
      assert r[k] == s[if k < i then k else k + 1];
    }
  }

  /** The code after the walk in `cJSON_InsertItemInArray` and `insert_item_in_array`. */
  method InsertBefore(parent: Node, item: Node, after: Node, ghost i: nat, ghost s: seq<Node>)
    requires Children(parent, s) && item !in s && item != parent && i < |s| && s[i] == after
    modifies parent, item, s
    ensures Children(parent, InsertAt(s, i, item))
  {
    Neighbours(parent, s, i);
    Neighbours(parent, s, 0);
    item.next := after;
    item.prev := after.prev;
    after.prev := item;
    if after == parent.child {
      parent.child := item;
    } else {
      item.prev.next := item;
    }
    Inserted(parent, s, i, item);
  }

  lemma Inserted(parent: Node, s: seq<Node>, i: nat, item: Node)
    requires parent !in s && NoRepeats(s) && i < |s| && item !in s && item != parent
    requires forall k :: 0 <= k < |s| ==> s[k].next == if k + 1 == i then item else NodeAt(s, k + 1)
    requires forall k :: 0 < k < |s| ==> s[k].prev == if k == i then item else s[k - 1]
    requires item.next == s[i] && item.prev == if i == 0 then s[|s| - 1] else s[i - 1]
    requires parent.child == if i == 0 then item else s[0]
    requires s[0].prev == if i == 0 then item else s[|s| - 1]
    ensures Children(parent, InsertAt(s, i, item))
  {
    InsertedAt(s, i, item);
    InsertedNext(s, i, item);
    InsertedPrev(s, i, item);
  }

  lemma InsertedAt(s: seq<Node>, i: nat, item: Node)
    requires i <= |s|
    ensures forall k :: 0 <= k <= |s| ==> InsertAt(s, i, item)[k] == if k < i then s[k] else if k == i then item else s[k - 1]
    ensures forall x :: x in InsertAt(s, i, item) ==> x in s || x == item
    ensures NoRepeats(s) && item !in s ==> NoRepeats(InsertAt(s, i, item))
  {
    var r := InsertAt(s, i, item);
    assert r == s[..i] + ([item] + s[i..]);
    forall k | 0 <= k <= |s| ensures r[k] == if k < i then s[k] else if k == i then item else s[k - 1] {
      if k > i {
        assert r[k] == ([item] + s[i..])[k - i];
      }
    }
  }

  lemma InsertedNext(s: seq<Node>, i: nat, item: Node)
    requires i < |s| && item.next == s[i]
    requires forall k :: 0 <= k < |s| ==> s[k].next == if k + 1 == i then item else NodeAt(s, k + 1)
    ensures Chain(InsertAt(s, i, item))
  {
    InsertedAt(s, i, item);
    var r := InsertAt(s, i, item);
    forall k | 0 <= k < |r| ensures r[k].next == NodeAt(r, k + 1) {
      assert k + 1 < |r| ==> r[k + 1] == if k + 1 < i then s[k + 1] else if k + 1 == i then item else s[k];
    }
  }

  lemma InsertedPrev(s: seq<Node>, i: nat, item: Node)
    requires i < |s| && (i > 0 ==> item.prev == s[i - 1])
    requires s[0].prev == if i == 0 then item else s[|s| - 1]
    requires forall k :: 0 < k < |s| ==> s[k].prev == if k == i then item else s[k - 1]
    ensures Back(InsertAt(s, i, item))
  {
    InsertedAt(s, i, item);
    var r := InsertAt(s, i, item);
    forall k | 0 < k < |r| ensures r[k].prev == r[k - 1] {
      assert r[k - 1] == if k - 1 < i then s[k - 1] else if k - 1 == i then item else s[k - 2];
    }
  }

  /** `cJSON_ReplaceItemViaPointer`, up to the deletion of the old item. */
  method Replace(parent: Node, item: Node, replacement: Node, ghost i: nat, ghost s: seq<Node>)
    requires Children(parent, s) && i < |s| && s[i] == item
    requires replacement == item || (replacement !in s && replacement != parent)
    modifies parent, replacement, s
    ensures Children(parent, s[i := replacement])
    ensures replacement != item ==> item.next == null && item.prev == null
  {
    if replacement == item {
      assert s[i := replacement] == s;
      return;
    }
    Neighbours(parent, s, i);
    if parent.child == item {
      ReplaceFirst(parent, item, replacement, s);
    } else {
      ReplaceLater(parent, item, replacement, i, s);
    }
  }

  method ReplaceFirst(parent: Node, item: Node, replacement: Node, ghost s: seq<Node>)
    requires Children(parent, s) && s != [] && s[0] == item && replacement !in s && replacement != parent
    modifies parent, replacement, s
    ensures Children(parent, s[0 := replacement])
    ensures item.next == null && item.prev == null
  {
    Neighbours(parent, s, 0);
    replacement.next, replacement.prev := item.next, item.prev;
    if replacement.next != null {
      replacement.next.prev := replacement;
    }
    if parent.child.prev == parent.child {
      replacement.prev := replacement;
    }
    parent.child := replacement;
    item.next, item.prev := null, null;
    Replaced(parent, s, 0, replacement);
  }

  method ReplaceLater(parent: Node, item: Node, replacement: Node, ghost i: nat, ghost s: seq<Node>)
    requires Children(parent, s) && 0 < i < |s| && s[i] == item && replacement !in s && replacement != parent
    modifies parent, replacement, s
    ensures Children(parent, s[i := replacement])
    ensures item.next == null && item.prev == null
  {
    Neighbours(parent, s, i);
    Neighbours(parent, s, 0);
    replacement.next, replacement.prev := item.next, item.prev;
    if replacement.next != null {
      replacement.next.prev := replacement;
    }
    if replacement.prev != null {
      replacement.prev.next := replacement;
    }
    if replacement.next == null {
      parent.child.prev := replacement;
    }
    item.next, item.prev := null, null;
    Replaced(parent, s, i, replacement);
  }

  lemma Replaced(parent: Node, s: seq<Node>, i: nat, item: Node)
    requires parent !in s && NoRepeats(s) && i < |s| && item !in s && item != parent
    requires forall k :: 0 <= k < |s| && k != i ==> s[k].next == if k + 1 == i then item else NodeAt(s, k + 1)
    requires forall k :: 0 < k < |s| && k != i ==> s[k].prev == if k - 1 == i then item else s[k - 1]
    requires item.next == NodeAt(s, i + 1)
    requires item.prev == if |s| == 1 then item else if i == 0 then s[|s| - 1] else s[i - 1]
    requires parent.child == if i == 0 then item else s[0]
    requires i > 0 ==> s[0].prev == if i == |s| - 1 then item else s[|s| - 1]
    ensures Children(parent, s[i := item])
  {
    ReplacedNext(s, i, item);
    ReplacedPrev(s, i, item);
  }

  lemma ReplacedNext(s: seq<Node>, i: nat, item: Node)
    requires i < |s| && item.next == NodeAt(s, i + 1)
    requires forall k :: 0 <= k < |s| && k != i ==> s[k].next == if k + 1 == i then item else NodeAt(s, k + 1)
    ensures Chain(s[i := item])
  {
    var r := s[i := item];
    forall k | 0 <= k < |r| ensures r[k].next == NodeAt(r, k + 1) {
      assert r[k] == if k == i then item else s[k];
    }
  }

  lemma ReplacedPrev(s: seq<Node>, i: nat, item: Node)
    requires i < |s| && (i > 0 ==> item.prev == s[i - 1])
    requires forall k :: 0 < k < |s| && k != i ==> s[k].prev == if k - 1 == i then item else s[k - 1]
    ensures Back(s[i := item])
  {
    var r := s[i := item];
    forall k | 0 < k < |r| ensures r[k].prev == r[k - 1] {
      if k != i {
        assert r[k] == s[k] && s[k].prev == if k - 1 == i then item else s[k - 1];
      }
      assert r[k - 1] == if k - 1 == i then item else s[k - 1];
    }
  }

  // ----- the operations by index

  /** `cJSON_InsertItemInArray`: past the end it appends. */
  method InsertItem(parent: Node, which: int, item: Node, ghost s: seq<Node>) returns (ok: bool)
    requires Children(parent, s) && Loose(item, parent, s)
    modifies parent, item, s
    ensures ok <==> which >= 0
    ensures Children(parent, Apply(s, Insert(which, item)))
    ensures !ok ==> item.next == old(item.next)
  {
    ok := which >= 0;
    if ok {
      var after := ItemAt(parent, which, s);
      if after == null {
        AddItem(parent, item, s, |s| - 1);
        AppendedAt(s, |s| - 1, item);
      } else {
        InsertBefore(parent, item, after, which, s);
      }
    }
  }

  /** `insert_item_in_array` of the patch code: past the end it refuses. */
  method InsertItemStrict(parent: Node, which: nat, item: Node, ghost s: seq<Node>) returns (ok: bool)
    requires Children(parent, s) && Loose(item, parent, s)
    modifies parent, item, s
    ensures ok <==> which <= |s|
    ensures Children(parent, if ok then InsertAt(s, which, item) else s)
  {
    var child, left := parent.child, which;
    ghost var i := 0;
    while child != null && left > 0
      invariant i + left == which && left >= 0 && 0 <= i <= |s| && child == NodeAt(s, i)
      invariant Children(parent, s) && Loose(item, parent, s)
    {
      assert s[i].next == NodeAt(s, i + 1);
      child, left := child.next, left - 1;
      i := i + 1;
    }
    ok := left == 0;
    if ok {
      if child == null {
        AddItem(parent, item, s, |s| - 1);
        AppendedAt(s, |s| - 1, item);
        assert InsertAt(s, |s|, item) == s + [item];
      } else {
        InsertBefore(parent, item, child, which, s);
      }
    }
  }

  /** `cJSON_DetachItemFromArray` and `detach_item_from_array`. */
  method DetachItem(parent: Node, which: int, ghost s: seq<Node>) returns (item: Node?)
    requires Children(parent, s)
    modifies parent, s
    ensures item == NodeAt(s, which)
    ensures Children(parent, Apply(s, Drop(which)))
    ensures item != null ==> item.next == null && item.prev == null
  {
    item := null;
    if which >= 0 {
      item := ItemAt(parent, which, s);
      if item != null {
        Detach(parent, item, which, s);
      }
    }
  }

  /** `cJSON_ReplaceItemInArray`. */
  method ReplaceItem(parent: Node, which: int, item: Node, ghost s: seq<Node>) returns (ok: bool)
    requires Children(parent, s) && item !in s && item != parent
    modifies parent, item, s
    ensures ok <==> 0 <= which < |s|
    ensures Children(parent, Apply(s, Change(which, item)))
    ensures ok ==> s[which].next == null
    ensures !ok ==> item.next == old(item.next)
  {
    ok := false;
    if which >= 0 {
      var replaced := ItemAt(parent, which, s);
      if replaced != null {
        Replace(parent, replaced, item, which, s);
        ok := true;
      }
    }
  }

  // ----- runs

  datatype Op =
    | Append(item: Node)
    | Insert(which: int, item: Node)
    | Drop(which: int)
    | Change(which: int, item: Node)

  /** An operation, on the sequence of children. */
  function Apply(s: seq<Node>, op: Op): seq<Node> {
    match op
    case Append(x) => s + [x]
    case Insert(w, x) => if w < 0 then s else if w < |s| then InsertAt(s, w, x) else s + [x]
    case Drop(w) => if 0 <= w < |s| then RemoveAt(s, w) else s
    case Change(w, x) => if 0 <= w < |s| then s[w := x] else s
  }

  function ApplyAll(s: seq<Node>, ops: seq<Op>): seq<Node>
    decreases |ops|
  {
    if ops == [] then s else ApplyAll(Apply(s, ops[0]), ops[1..])
  }

  /** No node is added to a list it is in. */
  ghost predicate Legal(s: seq<Node>, op: Op, pool: set<Node>) {
    op.Drop? || (op.item in pool && op.item !in s)
  }

  ghost predicate AllLegal(s: seq<Node>, ops: seq<Op>, pool: set<Node>)
    decreases |ops|
  {
    ops != [] ==> Legal(s, ops[0], pool) && AllLegal(Apply(s, ops[0]), ops[1..], pool)
  }

  /** The children are `s`; the other nodes of the pool are ready to be appended. */
  ghost predicate State(parent: Node, s: seq<Node>, pool: set<Node>)
    reads parent, s, pool
  {
    && Children(parent, s) && parent !in pool
    && (forall x :: x in s ==> x in pool)
    && (forall x :: x in pool && x !in s ==> x.next == null)
  }

  method Perform(parent: Node, op: Op, ghost s: seq<Node>, ghost pool: set<Node>)
    requires State(parent, s, pool) && Legal(s, op, pool)
    modifies parent, pool
    ensures State(parent, Apply(s, op), pool)
  {
    ApplyElements(s, op);
    match op {
      case Append(x) => AddItem(parent, x, s, |s| - 1);
        AppendedAt(s, |s| - 1, x);
      case Insert(w, x) => var _ := InsertItem(parent, w, x, s);
      case Drop(w) => var _ := DetachItem(parent, w, s);
      case Change(w, x) => var _ := ReplaceItem(parent, w, x, s);
    }
  }

  lemma ApplyElements(s: seq<Node>, op: Op)
    ensures forall x :: x in Apply(s, op) ==> x in s || (!op.Drop? && x == op.item)
    ensures forall x :: x in s && x !in Apply(s, op) ==>
              (op.Drop? || op.Change?) && 0 <= op.which < |s| && x == s[op.which]
    ensures op.Append? || (op.Insert? && op.which >= 0) || (op.Change? && 0 <= op.which < |s|) ==> op.item in Apply(s, op)
  {
  }

  /** Every run of appends, inserts, detaches and replacements keeps the list intact and does what it should. */
  method RunOps(parent: Node, ops: seq<Op>, ghost s: seq<Node>, ghost pool: set<Node>)
    requires State(parent, s, pool) && AllLegal(s, ops, pool)
    modifies parent, pool
    ensures State(parent, ApplyAll(s, ops), pool)
  {
    ghost var cur := s;
    var i := 0;
    assert ops[0..] == ops;
    while i < |ops|
      invariant 0 <= i <= |ops|
      invariant State(parent, cur, pool) && AllLegal(cur, ops[i..], pool)
      invariant ApplyAll(cur, ops[i..]) == ApplyAll(s, ops)
    {
      assert ops[i..][1..] == ops[i + 1..];
      Perform(parent, ops[i], cur, pool);
      cur := Apply(cur, ops[i]);
      i := i + 1;
    }
  }
}
