/**
 The memory of a tree: which blocks an item owns, and `cJSON_Delete`, which gives each of them back once.
 */
module Allocation {
  import opened CString
  import opened Json

  /** A string in a block of its own. */
  datatype Block = Block(addr: nat, text: string)

  /** A `cJSON` struct: its own block, the block of its key, and what it holds. */
  datatype Item = Item(addr: nat, name: Option<Block>, body: Body)

  /** `Plain` items own no block; `Nothing` is an item that has only been cleared. */
  datatype Body =
    | Nothing
    | Plain(value: Json)  // a word or a number
    | Text(block: Block)
    | Elements(items: seq<Item>)
    | Members(items: seq<Item>)

  // ----- the tree an item stands for

  predicate WellFormed(body: Body)
    decreases body, 0
  {
    match body
    case Nothing => false
    case Plain(v) => v.Null? || v.False? || v.True? || v.Number?
    case Text(b) => true
    case Elements(items) => AllWellFormed(items)
    case Members(items) => AllMembers(items)
  }

  /** Elements have no key. */
  predicate AllWellFormed(items: seq<Item>)
    decreases items, 0
  {
    forall i :: 0 <= i < |items| ==> items[i].name.None? && ItemWellFormed(items[i])
  }

  predicate AllMembers(items: seq<Item>)
    decreases items, 0
  {
    forall i :: 0 <= i < |items| ==> items[i].name.Some? && ItemWellFormed(items[i])
  }

  predicate ItemWellFormed(item: Item)
    decreases item, 0
  {
    WellFormed(item.body)
  }

  function Tree(body: Body): Json
    requires WellFormed(body)
    decreases body, 1
  {
    match body
    case Plain(v) => v
    case Text(b) => Str(b.text)
    case Elements(items) => Array(Trees(items))
    case Members(items) => Object(MemberTrees(items))
  }

  function ItemTree(item: Item): Json
    requires WellFormed(item.body)
    decreases item, 2
  {
    Tree(item.body)
  }

  function Trees(items: seq<Item>): (r: seq<Json>)
    requires AllWellFormed(items)
    ensures |r| == |items|
    decreases items, 0
  {
    if items == [] then []
    else
      assert ItemWellFormed(items[|items| - 1]);
      Trees(items[..|items| - 1]) + [ItemTree(items[|items| - 1])]
  }

  function MemberTrees(items: seq<Item>): (r: seq<Member>)
    requires AllMembers(items)
    ensures |r| == |items|
    decreases items, 0
  {
    if items == [] then []
    else
      var m := items[|items| - 1];
      assert ItemWellFormed(m);
      MemberTrees(items[..|items| - 1]) + [Member(m.name.value.text, ItemTree(m))]
  }

  // ----- the blocks it owns

  function NameBlocks(name: Option<Block>): multiset<nat> {
    if name.Some? then multiset{name.value.addr} else multiset{}
  }

  function BodyBlocks(body: Body): multiset<nat>
    decreases body, 0
  {
    match body
    case Nothing => multiset{}
    case Plain(_) => multiset{}
    case Text(b) => multiset{b.addr}
    case Elements(items) => ItemsBlocks(items)
    case Members(items) => ItemsBlocks(items)
  }

  function ItemBlocks(item: Item): multiset<nat>
    decreases item, 1
  {
    multiset{item.addr} + NameBlocks(item.name) + BodyBlocks(item.body)
  }

  function ItemsBlocks(items: seq<Item>): multiset<nat>
    decreases items, 0
  {
    if items == [] then multiset{} else ItemsBlocks(items[..|items| - 1]) + ItemBlocks(items[|items| - 1])
  }

  lemma ItemsBlocksAppend(items: seq<Item>, item: Item)
    ensures ItemsBlocks(items + [item]) == ItemsBlocks(items) + ItemBlocks(item)
  {
    assert (items + [item])[..|items|] == items;
  }

  lemma {:induction false} ItemsBlocksFirst(items: seq<Item>)
    requires items != []
    ensures ItemsBlocks(items) == ItemBlocks(items[0]) + ItemsBlocks(items[1..])
  {
    var n := |items|;
    if n > 1 {
      ItemsBlocksFirst(items[..n - 1]);
      assert items[..n - 1][1..] == items[1..][..n - 2];
      assert items[1..][n - 2] == items[n - 1];
      Associate(ItemBlocks(items[0]), ItemsBlocks(items[1..][..n - 2]), ItemBlocks(items[n - 1]));
    } else {
      assert items[1..] == [];
    }
  }

  lemma TreesAppend(items: seq<Item>, item: Item)
    requires AllWellFormed(items)
    requires item.name.None? && WellFormed(item.body)
    ensures AllWellFormed(items + [item])
    ensures Trees(items + [item]) == Trees(items) + [Tree(item.body)]
  {
    assert (items + [item])[..|items|] == items;
  }

  lemma MemberTreesAppend(items: seq<Item>, item: Item)
    requires AllMembers(items)
    requires item.name.Some? && WellFormed(item.body)
    ensures AllMembers(items + [item])
    ensures MemberTrees(items + [item]) == MemberTrees(items) + [Member(item.name.value.text, Tree(item.body))]
  {
    assert (items + [item])[..|items|] == items;
  }

  // ----- how many there are

  /** The blocks a tree needs besides its own item: one for a string, one for each element, two for each member. */
  function Needed(v: Json): nat
    decreases v, 1
  {
    match v
    case Str(_) => 1
    case Array(items) => ItemsNeeded(items)
    case Object(ms) => MembersNeeded(ms)
    case _ => 0
  }

  function ItemsNeeded(items: seq<Json>): nat
    decreases items, 0
  {
    if items == [] then 0
    else
      assert items[|items| - 1] in items;
      ItemsNeeded(items[..|items| - 1]) + 1 + Needed(items[|items| - 1])
  }

  function MembersNeeded(ms: seq<Member>): nat
    decreases ms, 0
  {
    if ms == [] then 0
    else
      assert ms[|ms| - 1] in ms;
      MembersNeeded(ms[..|ms| - 1]) + MemberNeeded(ms[|ms| - 1])
  }

  function MemberNeeded(m: Member): nat
    decreases m, 2
  {
    2 + Needed(m.value)
  }

  /** An item owns as many blocks as its tree needs. */
  lemma {:induction false} BlocksOfTree(body: Body)
    requires WellFormed(body)
    ensures |BodyBlocks(body)| == Needed(Tree(body))
    decreases body, 1
  {
    match body
    case Elements(items) => BlocksOfItems(items);
    case Members(items) => BlocksOfMembers(items);
    case _ =>
  }

  lemma {:induction false} BlocksOfItem(item: Item)
    requires ItemWellFormed(item)
    ensures |ItemBlocks(item)| == 1 + |NameBlocks(item.name)| + Needed(ItemTree(item))
    decreases item, 2
  {
    BlocksOfTree(item.body);
  }

  lemma {:induction false} BlocksOfItems(items: seq<Item>)
    requires AllWellFormed(items)
    ensures |ItemsBlocks(items)| == ItemsNeeded(Trees(items))
    decreases items, 0
  {
    if items != [] {
      var n := |items| - 1;
      assert ItemWellFormed(items[n]);
      BlocksOfItems(items[..n]);
      BlocksOfItem(items[n]);
      assert Trees(items)[..n] == Trees(items[..n]);
    }
  }

  lemma {:induction false} BlocksOfMembers(items: seq<Item>)
    requires AllMembers(items)
    ensures |ItemsBlocks(items)| == MembersNeeded(MemberTrees(items))
    decreases items, 0
  {
    if items != [] {
      var n := |items| - 1;
      assert ItemWellFormed(items[n]);
      BlocksOfMembers(items[..n]);
      BlocksOfItem(items[n]);
      assert MemberTrees(items)[..n] == MemberTrees(items[..n]);
    }
  }

  // ----- the allocator

  lemma {:induction false} AddressLeft(s: set<nat>)
    ensures exists a: nat :: a !in s
  {
    var bound := Above(s);
    assert bound !in s;
  }

  lemma {:induction false} Above(s: set<nat>) returns (bound: nat)
    ensures forall a :: a in s ==> a < bound
  {
    if s == {} {
      bound := 0;
    } else {
      var x :| x in s;
      var b := Above(s - {x});
      bound := if x < b then b else x + 1;
      forall a | a in s ensures a < bound {
        assert a == x || a in s - {x};
      }
    }
  }

  class Allocator {
    /** The blocks handed out and not yet given back. */
    var live: multiset<nat>
    /** How often a block was refused. */
    var refusals: nat

    constructor ()
      ensures live == multiset{} && refusals == 0
    {
      live, refusals := multiset{}, 0;
    }

    /** Any address that is not in use, or none: any request may be refused. */
    method Allocate() returns (a: Option<nat>)
      modifies this
      ensures a.Some? ==> a.value !in old(live) && live == old(live) + multiset{a.value} && refusals == old(refusals)
      ensures a.None? ==> live == old(live) && refusals == old(refusals) + 1
    {
      if * {
        AddressLeft(set x | x in live);
        var x :| x !in live;
        live := live + multiset{x};
        a := Some(x);
      } else {
        refusals := refusals + 1;
        a := None;
      }
    }

    /** Only a live block may be freed. */
    method Free(a: nat, ghost kept: multiset<nat>)
      requires live == kept + multiset{a}
      modifies this`live
      ensures live == kept
    {
      live := live - multiset{a};
    }

    /** `cJSON_Delete`: every block of the list is freed exactly once, and nothing else. */
    method Delete(items: seq<Item>, ghost kept: multiset<nat>)
      requires live == kept + ItemsBlocks(items)
      modifies this`live
      ensures live == kept
      decreases items
    {
      var i := 0;
      assert items[0..] == items;
      while i < |items|
        invariant 0 <= i <= |items|
        invariant live == kept + ItemsBlocks(items[i..])
      {
        ItemsBlocksFirst(items[i..]);
        assert items[i..][1..] == items[i + 1..];
        Reorder(kept, ItemBlocks(items[i]), ItemsBlocks(items[i + 1..]));
        DeleteOne(items[i], kept + ItemsBlocks(items[i + 1..]));
        i := i + 1;
      }
    }

    /** One round of the loop: the children, the strings, the item. */
    method DeleteOne(item: Item, ghost kept: multiset<nat>)
      requires live == kept + ItemBlocks(item)
      modifies this`live
      ensures live == kept
      decreases item
    {
      ghost var own, name := kept + multiset{item.addr}, NameBlocks(item.name);
      Nest(kept, multiset{item.addr}, name, BodyBlocks(item.body));
      match item.body {
        case Elements(items) => Delete(items, own + name);
        case Members(items) => Delete(items, own + name);
        case Text(b) => Free(b.addr, own + name);
        case _ =>
      }
      if item.name.Some? {
        Free(item.name.value.addr, own);
      }
      Free(item.addr, kept);
    }
  }

  lemma Associate(a: multiset<nat>, b: multiset<nat>, c: multiset<nat>)
    ensures a + (b + c) == a + b + c
  {
  }

  lemma Reorder(a: multiset<nat>, b: multiset<nat>, c: multiset<nat>)
    ensures a + (b + c) == a + c + b
  {
  }

  lemma Nest(a: multiset<nat>, b: multiset<nat>, c: multiset<nat>, d: multiset<nat>)
    ensures a + (b + c + d) == a + b + c + d
  {
  }
}
