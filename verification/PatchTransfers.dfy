/**
 What the operations move, copy and test amount to: a move is a removal and an addition, a copy is an addition,
 and a test decides equality up to member order without changing what the document means.
 */
module PatchTransfers {
  import opened CString
  import opened Json
  import opened Comparison
  import opened SortEffects
  import opened Pointer
  import opened PointerDecode
  import opened Patch
  import opened PatchRoundTrip
  import opened PatchRules

  // ----- move and copy

  /**
   A move (section 4.4 of RFC 6902) does what removing the node that `from` names and adding that same node at
   `path` do.
   */
  lemma MoveIsRemoveThenAdd(v: Json, p: string, token: string, at: Loc, i: nat, path: string, cs: bool)
    requires NamedBy(v, p, token, at, i, cs) && path != ""
    ensures ValidLoc(v, at + [i])
    ensures var from := p + "/" + token;
      Transfer(Tree(v), Move, Some(Str(from)), path, cs) ==
      ApplyEdits(Tree(v), [Edit(Remove, from, None), Edit(Add, path, Some(Get(v, at + [i])))], cs)
    ensures exists w :: Lost(Get(v, at), i, w) && Transfer(Tree(v), Move, Some(Str(p + "/" + token)), path, cs)
                                               == AddAtPath(Put(v, at, w), path, Get(v, at + [i]), cs)
  {
    DetachPathRemoves(v, p, token, cs);
    var from, x := p + "/" + token, Get(v, at + [i]);
    var rest := DetachPath(v, from, cs).value;
    var add := Edit(Add, path, Some(x));
    assert [Edit(Remove, from, None), add][1..] == [add];
    OneEditRun(Tree(rest), add, cs);
  }

  lemma OneEditRun(d: Document, e: Edit, cs: bool)
    ensures ApplyEdits(d, [e], cs) == ApplyEdit(d, e, cs)
  {
    assert [e][1..] == [];
  }

  /** Without a node at `from` there is nothing to move. */
  lemma MoveNeedsNode(v: Json, p: string, token: string, path: string, cs: bool)
    requires '/' !in token && forall at, i :: !NamedBy(v, p, token, at, i, cs)
    ensures Transfer(Tree(v), Move, Some(Str(p + "/" + token)), path, cs) == Applied(5, Tree(v))
    ensures ApplyEdit(Tree(v), Edit(Remove, p + "/" + token, None), cs) == Applied(13, Tree(v))
  {
    DetachPathRemoves(v, p, token, cs);
  }

  lemma MoveIs(v: Json, from: string, rest: Json, x: Json, path: string, cs: bool)
    requires DetachPath(v, from, cs) == Some(rest) && DetachedAt(v, from, cs) == x
    ensures Transfer(Tree(v), Move, Some(Str(from)), path, cs) == AddAtPath(rest, path, x, cs)
  {
  }

  /** From an array the element with the index. */
  lemma MoveElement(v: Json, p: string, at: Loc, n: nat, path: string, cs: bool)
    requires Resolve(v, p, cs) == Some(at) && Get(v, at).Array? && n < |Get(v, at).items| && n < SIZE_MODULUS
    ensures var items := Get(v, at).items;
      Transfer(Tree(v), Move, Some(Str(p + "/" + Decimal(n))), path, cs) ==
      AddAtPath(Put(v, at, Array(items[..n] + items[n + 1..])), path, items[n], cs)
  {
    var items := Get(v, at).items;
    var w := Array(items[..n] + items[n + 1..]);
    DecimalToken(n);
    DetachSplit(v, p, Decimal(n), at, w, cs);
    MoveIs(v, p + "/" + Decimal(n), Put(v, at, w), items[n], path, cs);
  }

  /** From an object the value of the first member whose key is equal ignoring case. */
  lemma MoveMember(v: Json, p: string, at: Loc, key: string, n: nat, path: string, cs: bool)
    requires Resolve(v, p, cs) == Some(at) && Get(v, at).Object? && DecodesBack(key)
    requires Names(Get(v, at), key, n)
    ensures var ms := Get(v, at).members;
      Transfer(Tree(v), Move, Some(Str(p + "/" + Encode(key))), path, cs) ==
      AddAtPath(Put(v, at, Object(ms[..n] + ms[n + 1..])), path, ms[n].value, cs)
  {
    var ms := Get(v, at).members;
    var w := Object(ms[..n] + ms[n + 1..]);
    EncodeNoSlash(key);
    DecodeUndoesEncode(key);
    FindIs(ms, key, false, n);
    DetachSplit(v, p, Encode(key), at, w, cs);
    MoveIs(v, p + "/" + Encode(key), Put(v, at, w), ms[n].value, path, cs);
  }

  /** A copy adds the value that `from` resolves to. */
  lemma CopyIsAdd(v: Json, from: string, path: string, cs: bool)
    requires path != ""
    ensures var at := Resolve(v, from, cs);
      Transfer(Tree(v), Copy, Some(Str(from)), path, cs) ==
        if at.None? then Applied(5, Tree(v))
        else ApplyEdit(Tree(v), Edit(Add, path, Some(Get(v, at.value))), cs)
  {
  }

  /** Nothing can be moved or copied to the root: unlike an addition there, it fails, and a moved value is gone. */
  lemma TransferToRootFails(v: Json, op: Op, from: string, cs: bool)
    requires op == Move || op == Copy
    ensures Transfer(Tree(v), op, Some(Str(from)), "", cs).status != 0
    ensures op == Move && DetachPath(v, from, cs).Some? ==>
      Transfer(Tree(v), op, Some(Str(from)), "", cs) == Applied(9, Tree(DetachPath(v, from, cs).value))
  {
  }

  // ----- test

  /** Putting a value that means the same in its place leaves the meaning of the tree. */
  lemma {:induction false} PutSame(v: Json, loc: Loc, c: Json, cs: bool)
    requires Distinct(v, cs) && ValidLoc(v, loc) && Same(Get(v, loc), c, cs)
    ensures Same(v, Put(v, loc, c), cs)
    decreases |loc|
  {
    if loc != [] {
      var i := loc[0];
      var child := Child(v, i);
      PutSame(child, loc[1..], c, cs);
      SetSame(v, i, Put(child, loc[1..], c), cs);
    }
  }

  lemma SetSame(v: Json, i: nat, c: Json, cs: bool)
    requires Distinct(v, cs) && i < ChildCount(v) && Same(Child(v, i), c, cs)
    ensures Same(v, SetChild(v, i, c), cs)
  {
    match v
    case Array(items) => SameArray(items, items[i := c], cs);
    case Object(ms) =>
      SetMeaning(ms, i, c, cs);
      MeaningAt(ms, i, cs);
  }

  lemma {:induction false} GetDistinct(v: Json, loc: Loc, cs: bool)
    requires Distinct(v, cs) && ValidLoc(v, loc)
    ensures Distinct(Get(v, loc), cs)
    decreases |loc|
  {
    if loc != [] {
      GetDistinct(Child(v, loc[0]), loc[1..], cs);
    }
  }

  /**
   On distinct keys a test succeeds exactly if the path leads to an item that equals the value up to member
   order, and in either case the document means what it meant.
   */
  lemma TestDecides(v: Json, path: string, value: Option<Json>, cs: bool)
    requires Distinct(v, cs) && (value.Some? ==> Distinct(value.value, cs))
    ensures var r := TestAt(Tree(v), path, value, cs);
      && r.status <= 1 && r.doc.Tree? && Same(v, r.doc.v, cs)
      && (r.status == 0 <==> Resolve(v, path, cs).Some? && value.Some?
                             && Meaning(Get(v, Resolve(v, path, cs).value), cs) == Meaning(value.value, cs))
  {
    var at := Resolve(v, path, cs);
    if at.Some? && value.Some? {
      var x := Get(v, at.value);
      GetDistinct(v, at.value, cs);
      EffectAnswers(x, value.value, cs);
      EffectKeepsMeaning(x, value.value, cs);
      SortedEqualIsMeaning(x, value.value, cs);
      PutSame(v, at.value, Effect(x, value.value, cs).left, cs);
    }
  }
}
