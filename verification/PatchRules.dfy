/**
 What `apply_patch` does, in terms of the nodes of the document: which child a removal takes out, which value a
 move carries, where an addition puts its value, what each status means, and what a failure leaves behind.
 */
module PatchRules {
  import opened CString
  import opened Sequences
  import opened Json
  import opened Pointer
  import opened PointerDecode
  import opened PointerLaws
  import opened Patch
  import opened PatchDescent
  import opened PatchRoundTrip

  // ----- places

  lemma {:induction false} GetPut(v: Json, loc: Loc, c: Json)
    requires ValidLoc(v, loc)
    ensures ValidLoc(Put(v, loc, c), loc) && Get(Put(v, loc, c), loc) == c
    decreases |loc|
  {
    if loc != [] {
      GetPut(Child(v, loc[0]), loc[1..], c);
    }
  }

  /** Writing a place leaves every place that is not on the way to it, or below it, alone. */
  lemma {:induction false} PutElsewhere(v: Json, loc: Loc, c: Json, other: Loc)
    requires ValidLoc(v, loc) && ValidLoc(v, other) && !(loc <= other) && !(other <= loc)
    ensures ValidLoc(Put(v, loc, c), other) && Get(Put(v, loc, c), other) == Get(v, other)
    decreases |loc|
  {
    if loc[0] == other[0] {
      assert loc[1..] <= other[1..] ==> loc <= other;
      assert other[1..] <= loc[1..] ==> other <= loc;
      PutElsewhere(Child(v, loc[0]), loc[1..], c, other[1..]);
    }
  }

  // ----- which child is taken out

  /** `w` is `v` without child `i`. */
  predicate Lost(v: Json, i: nat, w: Json) {
    i < ChildCount(v) &&
    match v
    case Array(items) => w == Array(items[..i] + items[i + 1..])
    case Object(ms) => w == Object(ms[..i] + ms[i + 1..])
  }

  /** The decoded token names child `i`: an array by its index, an object by its first key that is equal ignoring case. */
  predicate Names(v: Json, child: string, i: nat) {
    i < ChildCount(v) &&
    match v
    case Array(_) => DecodeIndex(child) == Some(i)
    case Object(ms) => Fold(ms[i].key) == Fold(child) && forall j :: 0 <= j < i ==> Fold(ms[j].key) != Fold(child)
  }

  /** A removal takes out the child that is named, and fails if none is. */
  lemma DetachRemoves(parent: Json, child: string)
    ensures DetachChild(parent, child).Some? <==> exists i :: Names(parent, child, i)
    ensures forall i :: Names(parent, child, i) ==>
              Lost(parent, i, DetachChild(parent, child).value) && DetachedChild(parent, child) == Child(parent, i)
  {
    if DetachChild(parent, child).Some? {
      assert Names(parent, child, if parent.Array? then DecodeIndex(child).value else Find(parent.members, child, false));
    }
    forall i | Names(parent, child, i)
      ensures DetachChild(parent, child).Some?
      ensures Lost(parent, i, DetachChild(parent, child).value) && DetachedChild(parent, child) == Child(parent, i)
    {
      if parent.Object? {
        FindIs(parent.members, child, false, i);
      }
    }
  }

  /** A path splits at its last slash into the pointer of a parent and a token. */
  lemma SplitPath(p: string, token: string)
    requires '/' !in token
    ensures var path := p + "/" + token;
      && LastSlash(path) == |p| < |path| && path[..|p|] == p && path[|p| + 1..] == token
  {
    var path := p + "/" + token;
    LastSlashConcat(p, "/" + token);
    LastSlashToken(token);
    assert path == p + ("/" + token);
  }

  /** The node `at + [i]` is named by `p` and `token`. */
  ghost predicate NamedBy(v: Json, p: string, token: string, at: Loc, i: nat, cs: bool) {
    '/' !in token && Resolve(v, p, cs) == Some(at) && Names(Get(v, at), DecodeInPlace(token), i)
  }

  lemma DetachSplit(v: Json, p: string, token: string, at: Loc, w: Json, cs: bool)
    requires '/' !in token && Resolve(v, p, cs) == Some(at) && DetachChild(Get(v, at), DecodeInPlace(token)) == Some(w)
    ensures DetachPath(v, p + "/" + token, cs) == Some(Put(v, at, w))
    ensures DetachedAt(v, p + "/" + token, cs) == DetachedChild(Get(v, at), DecodeInPlace(token))
  {
    SplitPath(p, token);
  }

  /** `detach_path` takes out the node `at + [i]`. */
  ghost predicate RemovesNode(v: Json, path: string, at: Loc, i: nat, cs: bool)
    requires ValidLoc(v, at)
  {
    && (exists w :: Lost(Get(v, at), i, w) && DetachPath(v, path, cs) == Some(Put(v, at, w)))
    && ValidLoc(v, at + [i]) && DetachedAt(v, path, cs) == Get(v, at + [i])
  }

  /** Removing a path removes the node it names, and only that; without such a node it fails. */
  lemma DetachPathRemoves(v: Json, p: string, token: string, cs: bool)
    requires '/' !in token
    ensures DetachPath(v, p + "/" + token, cs).Some? <==> exists at, i :: NamedBy(v, p, token, at, i, cs)
    ensures forall at, i :: NamedBy(v, p, token, at, i, cs) ==> RemovesNode(v, p + "/" + token, at, i, cs)
  {
    SplitPath(p, token);
    var child := DecodeInPlace(token);
    var at := Resolve(v, p, cs);
    if at.Some? {
      var parent := Get(v, at.value);
      DetachRemoves(parent, child);
      if DetachChild(parent, child).Some? {
        var i :| Names(parent, child, i);
        assert NamedBy(v, p, token, at.value, i, cs);
      }
      forall i | Names(parent, child, i) ensures RemovesNode(v, p + "/" + token, at.value, i, cs) {
        DetachSplit(v, p, token, at.value, DetachChild(parent, child).value, cs);
        GetBelow(v, at.value, i);
      }
    }
  }

  lemma {:induction false} GetBelow(v: Json, at: Loc, i: nat)
    requires ValidLoc(v, at) && i < ChildCount(Get(v, at))
    ensures ValidLoc(v, at + [i]) && Get(v, at + [i]) == Child(Get(v, at), i)
    decreases |at|
  {
    if at != [] {
      GetBelow(Child(v, at[0]), at[1..], i);
      assert (at + [i])[1..] == at[1..] + [i];
    } else {
      assert at + [i] == [i] && [i][1..] == [];
    }
  }

  // ----- adding

  function Inserted(items: seq<Json>, n: nat, x: Json): (nat, Json) {
    if n <= |items| then (0, Array(items[..n] + [x] + items[n..])) else (10, Array(items))
  }

  /** An index inside an array inserts, `-` appends, and everything else leaves the array as it is. */
  lemma AddToArray(items: seq<Json>, child: string, x: Json, cs: bool)
    ensures AddChild(Array(items), "-", x, cs) == (0, Array(items + [x]))
    ensures child != "-" && DecodeIndex(child).None? ==> AddChild(Array(items), child, x, cs) == (11, Array(items))
    ensures forall n :: child != "-" && DecodeIndex(child) == Some(n) ==> AddChild(Array(items), child, x, cs) == Inserted(items, n, x)
  {
  }

  lemma AddElement(items: seq<Json>, n: nat, x: Json, cs: bool)
    requires n < SIZE_MODULUS
    ensures AddChild(Array(items), Decimal(n), x, cs) == Inserted(items, n, x)
  {
    DecimalToken(n);
  }

  /** In an object the first member with the key goes and the new one comes last; in anything else nothing happens. */
  lemma AddToOther(parent: Json, child: string, x: Json, cs: bool)
    requires !parent.Array?
    ensures !parent.Object? ==> AddChild(parent, child, x, cs) == (9, parent)
    ensures parent.Object? ==> exists rest :: IsWithout(parent.members, child, cs, rest)
                                              && AddChild(parent, child, x, cs) == (0, Object(rest + [Member(child, x)]))
  {
    if parent.Object? {
      var ms := parent.members;
      var i := Find(ms, child, cs);
      assert i < |ms| ==> FirstWith(ms, child, cs, i);
      assert IsWithout(ms, child, cs, Without(ms, child, cs));
    }
  }

  predicate FirstWith(ms: seq<Member>, key: string, cs: bool, i: nat) {
    i < |ms| && Key(ms[i].key, cs) == Key(key, cs) && forall j :: 0 <= j < i ==> Key(ms[j].key, cs) != Key(key, cs)
  }

  ghost predicate IsWithout(ms: seq<Member>, key: string, cs: bool, rest: seq<Member>) {
    if exists m :: m in ms && Key(m.key, cs) == Key(key, cs) then
      exists i: nat :: FirstWith(ms, key, cs, i) && rest == ms[..i] + ms[i + 1..]
    else rest == ms
  }

  /** The walk to a place does not look at what is there. */
  lemma {:induction false} ResolveKept(v: Json, p: string, c: Json, q: string, cs: bool)
    requires Rest(p) && Rest(q) && Resolve(v, p, cs).Some?
    ensures var at := Resolve(v, p, cs).value; Resolve(Put(v, at, c), p + q, cs) == Prefixed(at, Resolve(c, q, cs))
    decreases Height(v)
  {
    if p == "" {
      assert p + q == q;
      NothingPrefixed(Resolve(c, q, cs));
    } else {
      var i, rest := Step(v, p[1..], cs).value, SkipToken(p[1..]);
      var l := Resolve(Child(v, i), rest, cs).value;
      ResolveKept(Child(v, i), rest, c, q, cs);
      GetPutThrough(v, i, l, c);
      ResolveBelow(v, i, Put(Child(v, i), l, c), p, q, cs);
      JoinPrefix(i, l, Resolve(c, q, cs));
    }
  }

  lemma ResolveBelow(v: Json, i: nat, c: Json, p: string, q: string, cs: bool)
    requires p != "" && p[0] == '/' && Rest(q) && Step(v, p[1..], cs) == Some(i)
    ensures Resolve(SetChild(v, i, c), p + q, cs) == Prefixed([i], Resolve(c, SkipToken(p[1..]) + q, cs))
  {
    var w := SetChild(v, i, c);
    assert (p + q)[1..] == p[1..] + q;
    StepKept(v, c, p[1..], q, cs);
    ChildOfSetChild(v, i, c, c);
    SkipKept(p[1..], q);
    assert Step(w, (p + q)[1..], cs) == Some(i);
  }

  /** A step looks at one token, and not at the children. */
  lemma StepKept(v: Json, c: Json, t: string, q: string, cs: bool)
    requires Rest(q) && Step(v, t, cs).Some?
    ensures var i := Step(v, t, cs).value; Step(SetChild(v, i, c), t + q, cs) == Some(i)
  {
    match v
    case Array(items) => IndexOfToken(t, q);
    case Object(ms) =>
      var i := Step(v, t, cs).value;
      var ns := ms[i := Member(ms[i].key, c)];
      forall j | 0 <= j < |ms| ensures TokenMatches(ns[j].key, t + q, cs) == TokenMatches(ms[j].key, t, cs) {
        MatchKept(ms[j].key, t, q, cs);
      }
  }

  lemma {:induction false} MatchKept(name: string, t: string, q: string, cs: bool)
    requires Rest(q)
    ensures TokenMatches(name, t + q, cs) == TokenMatches(name, t, cs)
    decreases |name|
  {
    if t == "" {
      assert t + q == q;
    } else if name != "" && t[0] != '/' {
      assert (t + q)[1..] == t[1..] + q;
      MatchKept(name[1..], t[1..], q, cs);
      if |t| >= 2 {
        assert (t + q)[2..] == t[2..] + q;
        MatchKept(name[1..], t[2..], q, cs);
      }
    }
  }

  lemma NothingPrefixed(r: Option<Loc>)
    ensures Prefixed([], r) == r
  {
    if r.Some? {
      assert [] + r.value == r.value;
    }
  }

  lemma JoinPrefix(i: nat, at: Loc, r: Option<Loc>)
    ensures Prefixed([i], Prefixed(at, r)) == Prefixed([i] + at, r)
  {
    if r.Some? {
      assert [i] + (at + r.value) == [i] + at + r.value;
    }
  }

  lemma {:induction false} SkipKept(t: string, q: string)
    requires Rest(q)
    ensures SkipToken(t + q) == SkipToken(t) + q
  {
    if t == "" {
      assert t + q == q;
      if q != "" && !Rest(q) {
        assert false;
      }
    } else if t[0] != '/' {
      SkipKept(t[1..], q);
      assert (t + q)[1..] == t[1..] + q;
    }
  }

  lemma AddSplit(v: Json, p: string, token: string, at: Loc, x: Json, cs: bool)
    requires '/' !in token && Resolve(v, p, cs) == Some(at)
    ensures var (status, w) := AddChild(Get(v, at), DecodeInPlace(token), x, cs);
      AddAtPath(v, p + "/" + token, x, cs) == Applied(status, Tree(Put(v, at, w)))
  {
    SplitPath(p, token);
  }

  /** After an addition the path leads to the value: in an array for an index up to its length. */
  lemma AddedElementFound(v: Json, p: string, at: Loc, n: nat, x: Json, cs: bool)
    requires Rest(p) && Resolve(v, p, cs) == Some(at) && Get(v, at).Array? && n <= |Get(v, at).items| && n < SIZE_MODULUS
    ensures var path := p + "/" + Decimal(n); Found(AddAtPath(v, path, x, cs), path, at + [n], x, cs)
  {
    var items := Get(v, at).items;
    var w := Array(items[..n] + [x] + items[n..]);
    DecimalToken(n);
    AddElement(items, n, x, cs);
    AddSplit(v, p, Decimal(n), at, x, cs);
    IndexSelects(w.items, n, cs);
    FoundIs(v, p, Decimal(n), at, w, n, x, cs);
  }

  /** In an object if the key was there no more than once. */
  lemma AddedMemberFound(v: Json, p: string, at: Loc, key: string, x: Json, cs: bool)
    requires Rest(p) && Resolve(v, p, cs) == Some(at) && Get(v, at).Object? && DecodesBack(key)
    requires DistinctKeys(Get(v, at).members, cs)
    ensures var path := p + "/" + Encode(key);
      Found(AddAtPath(v, path, x, cs), path, at + [|Without(Get(v, at).members, key, cs)|], x, cs)
  {
    var rest := Without(Get(v, at).members, key, cs);
    var w := Object(rest + [Member(key, x)]);
    EncodeNoSlash(key);
    DecodeUndoesEncode(key);
    AddSplit(v, p, Encode(key), at, x, cs);
    AbsentAfter(Get(v, at).members, key, cs);
    FindIs(w.members, key, cs, |rest|);
    forall q | Rest(q) ensures Step(w, Encode(key) + q, cs) == Some(|rest|) {
      MatchMemberIsFind(w.members, key, q, cs);
    }
    FoundIs(v, p, Encode(key), at, w, |rest|, x, cs);
  }

  lemma AbsentAfter(ms: seq<Member>, key: string, cs: bool)
    requires DistinctKeys(ms, cs)
    ensures forall m :: m in Without(ms, key, cs) ==> Key(m.key, cs) != Key(key, cs)
  {
    var i, rest := Find(ms, key, cs), Without(ms, key, cs);
    forall j | 0 <= j < |rest| ensures Key(rest[j].key, cs) != Key(key, cs) {
      assert rest[j] == ms[if j < i then j else j + 1];
    }
  }

  ghost predicate Found(r: Applied, path: string, loc: Loc, x: Json, cs: bool) {
    r.status == 0 && r.doc.Tree? && Resolve(r.doc.v, path, cs) == Some(loc) && ValidLoc(r.doc.v, loc) && Get(r.doc.v, loc) == x
  }

  lemma FoundIs(v: Json, p: string, token: string, at: Loc, w: Json, i: nat, x: Json, cs: bool)
    requires Rest(p) && Resolve(v, p, cs) == Some(at) && Selects(w, token, i, cs) && Child(w, i) == x
    ensures Found(Applied(0, Tree(Put(v, at, w))), p + "/" + token, at + [i], x, cs)
  {
    var q := "/" + token;
    ResolveKept(v, p, w, q, cs);
    ResolveThrough(w, token, i, "", cs);
    assert "/" + token + "" == q && p + q == p + "/" + token;
    assert [i] + [] == [i];
    GetPut(v, at, w);
    GetBelow(Put(v, at, w), at, i);
  }

  // ----- operations and statuses

  predicate Named(patch: Json, name: string, cs: bool) {
    Item(patch, "op", cs) == Some(Str(name))
  }

  predicate HasPath(patch: Json, cs: bool) {
    Item(patch, "path", cs).Some? && Item(patch, "path", cs).value.Str?
  }

  /** The six names of section 4 of RFC 6902, and nothing else, are operations. */
  lemma OpNames(patch: Json, cs: bool)
    ensures DecodeOp(patch, cs) == Add <==> Named(patch, "add", cs)
    ensures DecodeOp(patch, cs) == Remove <==> Named(patch, "remove", cs)
    ensures DecodeOp(patch, cs) == Replace <==> Named(patch, "replace", cs)
    ensures DecodeOp(patch, cs) == Move <==> Named(patch, "move", cs)
    ensures DecodeOp(patch, cs) == Copy <==> Named(patch, "copy", cs)
    ensures DecodeOp(patch, cs) == Test <==> Named(patch, "test", cs)
  {
  }

  /** What each operation does to a document below its root. */
  lemma OpRules(v: Json, patch: Json, path: string, value: Json, from: string, cs: bool)
    requires Item(patch, "path", cs) == Some(Str(path)) && path != ""
    requires Item(patch, "value", cs) == Some(value) && Item(patch, "from", cs) == Some(Str(from))
    ensures Readable(patch, cs)
    ensures var r := ApplyPatch(Tree(v), patch, cs);
      var gone, taken := DetachPath(v, path, cs), DetachPath(v, from, cs);
      && (Named(patch, "add", cs) ==> r == AddAtPath(v, path, value, cs))
      && (Named(patch, "remove", cs) && gone.Some? ==> r == Applied(0, Tree(gone.value)))
      && (Named(patch, "replace", cs) && gone.Some? ==> r == AddAtPath(gone.value, path, value, cs))
      && (Named(patch, "move", cs) && taken.Some? ==>
            r == AddAtPath(taken.value, path, DetachedAt(v, from, cs), cs))
      && (Named(patch, "copy", cs) && Resolve(v, from, cs).Some? ==>
            r == AddAtPath(v, path, Get(v, Resolve(v, from, cs).value), cs))
  {
    OpNames(patch, cs);
  }

  /** The root can be written as a whole or removed. */
  lemma RootRules(d: Document, patch: Json, cs: bool)
    requires Item(patch, "path", cs) == Some(Str("")) && Readable(patch, cs)
    ensures var r, value := ApplyPatch(d, patch, cs), Item(patch, "value", cs);
      && (Named(patch, "remove", cs) ==> r == Applied(0, InvalidItem))
      && (Named(patch, "add", cs) || Named(patch, "replace", cs) ==>
            r == if value.Some? then Applied(0, Tree(value.value)) else Applied(7, d))
  {
    OpNames(patch, cs);
  }

  /** When the document has no node at the path, or nothing there that can be removed. */
  predicate Missing(d: Document, path: string, cs: bool) {
    d.Tree? ==> DetachPath(d.v, path, cs).None?
  }

  /** The item that `from` names cannot be had. */
  predicate NoItem(d: Document, op: Op, from: Json, cs: bool) {
    !from.Str?
    || (op == Move && Missing(d, from.text, cs))
    || (op == Copy && if d.Tree? then Resolve(d.v, from.text, cs).None? else from.text != "")
  }

  predicate NoSource(d: Document, patch: Json, cs: bool)
    requires Item(patch, "from", cs).Some?
  {
    NoItem(d, if Named(patch, "move", cs) then Move else Copy, Item(patch, "from", cs).value, cs)
  }

  predicate NoTarget(d: Document, patch: Json, cs: bool)
    requires HasPath(patch, cs)
  {
    var path := Item(patch, "path", cs).value.text;
    (Named(patch, "remove", cs) || Named(patch, "replace", cs)) && path != "" && Missing(d, path, cs)
  }

  predicate NoValue(patch: Json, cs: bool) {
    (Named(patch, "add", cs) || Named(patch, "replace", cs)) && Item(patch, "value", cs).None?
  }

  predicate Transfers(patch: Json, cs: bool) {
    Named(patch, "move", cs) || Named(patch, "copy", cs)
  }

  lemma TransferStatus(d: Document, op: Op, from: Option<Json>, path: string, cs: bool)
    requires op == Copy || (op == Move && (from.None? || from.value.Str?))
    ensures var status := Transfer(d, op, from, path, cs).status;
      && status !in {1, 2, 3, 7, 13}
      && (status == 4 <==> from.None?)
      && (status == 5 <==> from.Some? && NoItem(d, op, from.value, cs))
  {
    if d.Tree? && from.Some? && from.value.Str? {
      if op == Move && DetachPath(d.v, from.value.text, cs).Some? {
        AddStatusMeans(DetachPath(d.v, from.value.text, cs).value, path, DetachedAt(d.v, from.value.text, cs), cs);
      } else if op == Copy && Resolve(d.v, from.value.text, cs).Some? {
        AddStatusMeans(d.v, path, Get(d.v, Resolve(d.v, from.value.text, cs).value), cs);
      }
    }
  }

  lemma EditStatus(d: Document, e: Edit, cs: bool)
    requires Emitted(e)
    ensures var status := ApplyEdit(d, e, cs).status;
      && status !in {1, 2, 3, 4, 5}
      && (status == 13 <==> e.op != Add && e.path != "" && Missing(d, e.path, cs))
      && (status == 7 <==> e.op != Remove && e.value.None? && !(e.op == Replace && e.path != "" && Missing(d, e.path, cs)))
  {
    if d.Tree? && e.path != "" && e.value.Some? {
      AddStatusMeans(d.v, e.path, e.value.value, cs);
      if DetachPath(d.v, e.path, cs).Some? {
        AddStatusMeans(DetachPath(d.v, e.path, cs).value, e.path, e.value.value, cs);
      }
    }
  }

  /** What the statuses below 9 and the status 13 mean. */
  lemma StatusMeans(d: Document, patch: Json, cs: bool)
    requires Readable(patch, cs)
    ensures var status, good := ApplyPatch(d, patch, cs).status, HasPath(patch, cs);
      && (status == 2 <==> !good)
      && (status == 3 <==> good && DecodeOp(patch, cs) == Malformed)
      && (status == 4 <==> good && Transfers(patch, cs) && Item(patch, "from", cs).None?)
      && (status == 5 <==> good && Transfers(patch, cs) && Item(patch, "from", cs).Some? && NoSource(d, patch, cs))
      && (status == 13 <==> good && NoTarget(d, patch, cs))
      && (status == 7 <==> good && NoValue(patch, cs) && !NoTarget(d, patch, cs))
      && (status == 1 ==> good && Named(patch, "test", cs))
  {
    OpNames(patch, cs);
    if HasPath(patch, cs) {
      var op, path := DecodeOp(patch, cs), Item(patch, "path", cs).value.text;
      if op == Move || op == Copy {
        TransferStatus(d, op, Item(patch, "from", cs), path, cs);
      } else if op == Add || op == Remove || op == Replace {
        EditStatus(d, Edit(op, path, Item(patch, "value", cs)), cs);
      }
    }
  }

  lemma AddChildStatus(parent: Json, child: string, x: Json, cs: bool)
    ensures var status := AddChild(parent, child, x, cs).0; status in {0, 9, 10, 11} && AddFails(parent, child, status)
  {
  }

  ghost predicate AddFails(parent: Json, child: string, status: nat) {
    && (status == 9 <==> !parent.Array? && !parent.Object?)
    && (status == 11 <==> parent.Array? && child != "-" && DecodeIndex(child).None?)
    && (status == 10 <==> parent.Array? && child != "-" && DecodeIndex(child).Some?
                          && DecodeIndex(child).value > |parent.items|)
  }

  /** What the others mean: the parent is missing or a scalar, or the token is no index or one beyond the end. */
  lemma AddStatusMeans(v: Json, path: string, x: Json, cs: bool)
    ensures var k := LastSlash(path);
      var at := Resolve(v, path[..k], cs);
      var status := AddAtPath(v, path, x, cs).status;
      && status in {0, 9, 10, 11}
      && if k == |path| || at.None? then status == 9
         else AddFails(Get(v, at.value), DecodeInPlace(path[k + 1..]), status)
  {
    var k := LastSlash(path);
    var at := Resolve(v, path[..k], cs);
    if k < |path| && at.Some? {
      AddChildStatus(Get(v, at.value), DecodeInPlace(path[k + 1..]), x, cs);
    }
  }

  lemma AddFailureKeeps(v: Json, path: string, x: Json, cs: bool)
    requires AddAtPath(v, path, x, cs).status != 0
    ensures AddAtPath(v, path, x, cs).doc == Tree(v)
  {
    var k := LastSlash(path);
    var at := Resolve(v, path[..k], cs);
    if k < |path| && at.Some? {
      PutGet(v, at.value);
    }
  }

  lemma {:induction false} PutGet(v: Json, loc: Loc)
    requires ValidLoc(v, loc)
    ensures Put(v, loc, Get(v, loc)) == v
    decreases |loc|
  {
    if loc != [] {
      PutGet(Child(v, loc[0]), loc[1..]);
      ChildOfSetChild(v, loc[0], Null, Null);
    }
  }

  /**
   A patch that fails leaves the document as it was, but for two operations that have taken an item out by then:
   a replacement loses what was at `path`, a move what was at `from`. A test may sort what it compares.
   */
  lemma FailureLeaves(v: Json, patch: Json, cs: bool)
    requires Readable(patch, cs) && ApplyPatch(Tree(v), patch, cs).status != 0 && !Named(patch, "test", cs)
    ensures var r := ApplyPatch(Tree(v), patch, cs);
      r.doc == Tree(v)
      || (Named(patch, "replace", cs) && Lacks(r.doc, v, Item(patch, "path", cs), cs))
      || (Named(patch, "move", cs) && Lacks(r.doc, v, Item(patch, "from", cs), cs))
  {
    OpNames(patch, cs);
    if HasPath(patch, cs) {
      var op, path, from := DecodeOp(patch, cs), Item(patch, "path", cs).value.text, Item(patch, "from", cs);
      if op == Move || op == Copy {
        if from.Some? && from.value.Str? {
          TransferFailure(v, op, from.value.text, path, cs);
        }
      } else if op == Add || op == Remove || op == Replace {
        EditFailure(v, Edit(op, path, Item(patch, "value", cs)), cs);
      }
    }
  }

  lemma EditFailure(v: Json, e: Edit, cs: bool)
    requires Emitted(e) && ApplyToTree(v, e, cs).status != 0
    ensures var doc := ApplyToTree(v, e, cs).doc;
      doc == Tree(v) || (e.op == Replace && Lacks(doc, v, Some(Str(e.path)), cs))
  {
    if e.path != "" && e.value.Some? {
      if e.op == Add {
        AddFailureKeeps(v, e.path, e.value.value, cs);
      } else if e.op == Replace && DetachPath(v, e.path, cs).Some? {
        AddFailureKeeps(DetachPath(v, e.path, cs).value, e.path, e.value.value, cs);
      }
    }
  }

  lemma TransferFailure(v: Json, op: Op, from: string, path: string, cs: bool)
    ensures op == Move || op == Copy ==>
              var r := Transfer(Tree(v), op, Some(Str(from)), path, cs);
              r.status != 0 ==> r.doc == Tree(v) || (op == Move && Lacks(r.doc, v, Some(Str(from)), cs))
  {
    if op == Move && DetachPath(v, from, cs).Some? {
      var rest, x := DetachPath(v, from, cs).value, DetachedAt(v, from, cs);
      if AddAtPath(rest, path, x, cs).status != 0 {
        AddFailureKeeps(rest, path, x, cs);
      }
    } else if op == Copy && Resolve(v, from, cs).Some? {
      var x := Get(v, Resolve(v, from, cs).value);
      if AddAtPath(v, path, x, cs).status != 0 {
        AddFailureKeeps(v, path, x, cs);
      }
    }
  }

  predicate Lacks(d: Document, v: Json, place: Option<Json>, cs: bool) {
    place.Some? && place.value.Str? && DetachPath(v, place.value.text, cs).Some?
    && d == Tree(DetachPath(v, place.value.text, cs).value)
  }

  // ----- runs of patches

  /** Patches are applied in order, each to what the ones before left, and nothing comes after a failure. */
  lemma {:induction false} ApplyInOrder(d: Document, a: seq<Json>, b: seq<Json>, cs: bool)
    requires Applicable(a + b, cs)
    ensures Applicable(a, cs) && Applicable(b, cs)
    ensures ApplyPatches(d, a + b, cs) ==
            var r := ApplyPatches(d, a, cs); if r.status != 0 then r else ApplyPatches(r.doc, b, cs)
    decreases |a|
  {
    assert forall i :: 0 <= i < |a| ==> a[i] == (a + b)[i];
    assert forall i :: 0 <= i < |b| ==> b[i] == (a + b)[|a| + i];
    if a == [] {
      assert a + b == b;
    } else {
      assert (a + b)[1..] == a[1..] + b;
      var r := ApplyPatch(d, a[0], cs);
      ApplyInOrder(r.doc, a[1..], b, cs);
    }
  }

  lemma ApplyOnePatch(d: Document, patch: Json, cs: bool)
    requires Readable(patch, cs)
    ensures ApplyPatches(d, [patch], cs) == ApplyPatch(d, patch, cs)
    ensures ApplyPatches(d, [], cs) == Applied(0, d)
  {
    assert [patch][1..] == [];
  }
}
