/**
 Edits below a child act on the child: applying an edit whose path starts with the token of a child
 is applying the rest of the path inside that child.
 */
module PatchDescent {
  import opened CString
  import opened Json
  import opened Sorting
  import opened Comparison
  import opened Pointer
  import opened PointerDecode
  import opened Patch

  lemma {:induction false} LastSlashConcat(a: string, q: string)
    requires '/' in q
    ensures LastSlash(a + q) == |a| + LastSlash(q)
  {
    if a == "" {
      assert a + q == q;
    } else {
      LastSlashConcat(a[1..], q);
      assert (a + q)[1..] == a[1..] + q;
    }
  }

  lemma {:induction false} NoSlash(t: string)
    requires '/' !in t
    ensures LastSlash(t) == |t|
  {
  }

  lemma LastSlashToken(token: string)
    requires '/' !in token
    ensures LastSlash("/" + token) == 0
  {
    assert ("/" + token)[1..] == token;
    NoSlash(token);
  }

  /** The token selects child `i`, whatever follows it. */
  ghost predicate Selects(v: Json, token: string, i: nat, cs: bool) {
    && i < ChildCount(v)
    && '/' !in token
    && forall rest :: Rest(rest) ==> Step(v, token + rest, cs) == Some(i)
  }

  lemma ResolveThrough(v: Json, token: string, i: nat, q: string, cs: bool)
    requires Selects(v, token, i, cs) && Rest(q)
    ensures Resolve(v, "/" + token + q, cs) == Prefixed([i], Resolve(Child(v, i), q, cs))
  {
    var p := "/" + token + q;
    assert p[1..] == token + q;
    SkipTokenIs(token, q);
  }

  lemma GetPutThrough(v: Json, i: nat, l: Loc, c: Json)
    requires i < ChildCount(v) && ValidLoc(Child(v, i), l)
    ensures ValidLoc(v, [i] + l)
    ensures Get(v, [i] + l) == Get(Child(v, i), l)
    ensures Put(v, [i] + l, c) == SetChild(v, i, Put(Child(v, i), l, c))
  {
    assert ([i] + l)[1..] == l;
  }

  lemma ChildOfSetChild(v: Json, i: nat, c: Json, d: Json)
    requires i < ChildCount(v)
    ensures ChildCount(SetChild(v, i, c)) == ChildCount(v)
    ensures Child(SetChild(v, i, c), i) == c
    ensures SetChild(SetChild(v, i, c), i, d) == SetChild(v, i, d)
    ensures SetChild(v, i, Child(v, i)) == v
  {
  }

  lemma MatchMemberKeys(ms: seq<Member>, ns: seq<Member>, p: string, cs: bool)
    requires |ms| == |ns| && forall i :: 0 <= i < |ms| ==> ms[i].key == ns[i].key
    ensures MatchMember(ms, p, cs) == MatchMember(ns, p, cs)
  {
    assert forall i :: 0 <= i < |ms| ==> TokenMatches(ms[i].key, p, cs) == TokenMatches(ns[i].key, p, cs);
  }

  /** Changing a child changes no selection. */
  lemma SelectsKept(v: Json, token: string, i: nat, j: nat, c: Json, cs: bool)
    requires Selects(v, token, i, cs) && j < ChildCount(v)
    ensures Selects(SetChild(v, j, c), token, i, cs)
  {
    var w := SetChild(v, j, c);
    forall rest | Rest(rest) ensures Step(w, token + rest, cs) == Some(i) {
      assert Step(v, token + rest, cs) == Some(i);
      if v.Object? {
        MatchMemberKeys(v.members, w.members, token + rest, cs);
      }
    }
  }

  /** Splitting `"/" + token + q` at its last slash splits `q` at its last slash. */
  lemma SplitThrough(token: string, q: string)
    requires q != "" && q[0] == '/'
    ensures var p, k := "/" + token + q, LastSlash(q);
            && k < |q|
            && LastSlash(p) == 1 + |token| + k < |p|
            && p[..LastSlash(p)] == "/" + token + q[..k]
            && p[LastSlash(p) + 1..] == q[k + 1..]
            && Rest(q[..k])
  {
    var k := LastSlash(q);
    assert q[0] in q;
    LastSlashConcat("/" + token, q);
    assert k > 0 ==> q[..k][0] == '/';
  }

  /** The parent that `p` names in `v` is the parent that `q` names in child `i`, and so is the child token. */
  ghost predicate Through(v: Json, i: nat, p: string, q: string, cs: bool) {
    var j, k := LastSlash(p), LastSlash(q);
    && i < ChildCount(v)
    && j < |p| && k < |q|
    && p[j + 1..] == q[k + 1..]
    && Resolve(v, p[..j], cs) == Prefixed([i], Resolve(Child(v, i), q[..k], cs))
  }

  lemma GoesThrough(v: Json, token: string, i: nat, q: string, cs: bool)
    requires Selects(v, token, i, cs) && q != "" && q[0] == '/'
    ensures Through(v, i, "/" + token + q, q, cs)
  {
    SplitThrough(token, q);
    ResolveThrough(v, token, i, q[..LastSlash(q)], cs);
  }

  lemma DetachDescends(v: Json, i: nat, p: string, q: string, cs: bool)
    requires Through(v, i, p, q, cs)
    ensures var r := DetachPath(Child(v, i), q, cs);
            DetachPath(v, p, cs) == if r.None? then None else Some(SetChild(v, i, r.value))
  {
    var k := LastSlash(q);
    var at := Resolve(Child(v, i), q[..k], cs);
    if at.Some? {
      GetPutThrough(v, i, at.value, Null);
      var parent := DetachChild(Get(Child(v, i), at.value), DecodeInPlace(q[k + 1..]));
      if parent.Some? {
        GetPutThrough(v, i, at.value, parent.value);
      }
    }
  }

  lemma AddDescends(v: Json, i: nat, p: string, q: string, x: Json, cs: bool)
    requires Through(v, i, p, q, cs)
    requires AddAtPath(Child(v, i), q, x, cs).status == 0
    ensures AddAtPath(Child(v, i), q, x, cs).doc.Tree?
    ensures AddAtPath(v, p, x, cs) == Applied(0, Tree(SetChild(v, i, AddAtPath(Child(v, i), q, x, cs).doc.v)))
  {
    var k := LastSlash(q);
    var at := Resolve(Child(v, i), q[..k], cs);
    assert at.Some?;
    GetPutThrough(v, i, at.value, AddChild(Get(Child(v, i), at.value), DecodeInPlace(q[k + 1..]), x, cs).1);
  }

  function Under(prefix: string, e: Edit): Edit {
    e.(path := prefix + e.path)
  }

  /** Applying an edit below a child. */
  lemma EditDescends(v: Json, token: string, i: nat, e: Edit, cs: bool)
    requires Selects(v, token, i, cs) && Emitted(e) && e.path != "" && e.path[0] == '/'
    requires ApplyToTree(Child(v, i), e, cs).status == 0
    ensures ApplyToTree(Child(v, i), e, cs).doc.Tree?
    ensures ApplyToTree(v, Under("/" + token, e), cs) ==
            Applied(0, Tree(SetChild(v, i, ApplyToTree(Child(v, i), e, cs).doc.v)))
  {
    var p := "/" + token + e.path;
    assert p != "";
    GoesThrough(v, token, i, e.path, cs);
    if e.op == Add {
      AddDescends(v, i, p, e.path, e.value.value, cs);
    } else {
      DetachDescends(v, i, p, e.path, cs);
      if e.op == Replace {
        var c := DetachPath(Child(v, i), e.path, cs).value;
        var w := SetChild(v, i, c);
        SelectsKept(v, token, i, i, c, cs);
        ChildOfSetChild(v, i, c, Null);
        GoesThrough(w, token, i, e.path, cs);
        AddDescends(w, i, p, e.path, e.value.value, cs);
        ChildOfSetChild(v, i, c, AddAtPath(c, e.path, e.value.value, cs).doc.v);
      }
    }
  }

  function UnderAll(prefix: string, es: seq<Edit>): (r: seq<Edit>)
    ensures |r| == |es|
    ensures forall i :: 0 <= i < |es| ==> r[i] == Under(prefix, es[i])
  {
    if es == [] then [] else [Under(prefix, es[0])] + UnderAll(prefix, es[1..])
  }

  lemma UnderAllConcat(prefix: string, a: seq<Edit>, b: seq<Edit>)
    ensures UnderAll(prefix, a + b) == UnderAll(prefix, a) + UnderAll(prefix, b)
  {
  }

  /** Edits strictly below `path`. */
  ghost predicate Below(es: seq<Edit>, path: string) {
    forall i :: 0 <= i < |es| ==> Emitted(es[i]) && path + "/" <= es[i].path
  }

  /** Applying a list of edits below a child. */
  lemma {:induction false} EditsDescend(v: Json, token: string, i: nat, es: seq<Edit>, cs: bool)
    requires Selects(v, token, i, cs) && Below(es, "")
    requires ApplyEdits(Tree(Child(v, i)), es, cs).status == 0
    ensures ApplyEdits(Tree(Child(v, i)), es, cs).doc.Tree?
    ensures ApplyEdits(Tree(v), UnderAll("/" + token, es), cs) ==
            Applied(0, Tree(SetChild(v, i, ApplyEdits(Tree(Child(v, i)), es, cs).doc.v)))
    decreases |es|
  {
    if es == [] {
      ChildOfSetChild(v, i, Null, Null);
    } else {
      var e := es[0];
      assert "" + "/" <= e.path && e.path[0] == '/';
      EditDescends(v, token, i, e, cs);
      var c := ApplyToTree(Child(v, i), e, cs).doc.v;
      var w := SetChild(v, i, c);
      SelectsKept(v, token, i, i, c, cs);
      ChildOfSetChild(v, i, c, Null);
      EditsDescend(w, token, i, es[1..], cs);
      ChildOfSetChild(v, i, c, ApplyEdits(Tree(c), es[1..], cs).doc.v);
      assert UnderAll("/" + token, es)[1..] == UnderAll("/" + token, es[1..]);
    }
  }

  lemma {:induction false} ApplyConcat(d: Document, a: seq<Edit>, b: seq<Edit>, cs: bool)
    requires ApplyEdits(d, a, cs).status == 0
    ensures ApplyEdits(d, a + b, cs) == ApplyEdits(ApplyEdits(d, a, cs).doc, b, cs)
    decreases |a|
  {
    if a == [] {
      assert a + b == b;
    } else {
      assert (a + b)[1..] == a[1..] + b;
      ApplyConcat(ApplyEdit(d, a[0], cs).doc, a[1..], b, cs);
    }
  }

  // ----- the path is only a prefix of what is generated

  lemma {:induction false} PatchesUnder(p: string, q: string, f: Json, t: Json, cs: bool)
    ensures CreatePatches(p + q, f, t, cs) == UnderAll(p, CreatePatches(q, f, t, cs))
    decreases Height(f), 1, 0
  {
    if Differ(f, t) {
    } else if f.Array? {
      ArrayPatchesUnder(p, q, 0, f.items, t.items, cs);
    } else if f.Object? {
      SortedHeights(f.members, cs);
      ObjectPatchesUnder(p, q, SortMembers(f.members, cs), SortMembers(t.members, cs), cs);
    }
  }

  lemma Reassociate(p: string, q: string, token: string)
    ensures p + q + "/" + token == p + (q + "/" + token)
  {
  }

  lemma {:induction false} ArrayPatchesUnder(p: string, q: string, index: nat, fs: seq<Json>, ts: seq<Json>, cs: bool)
    ensures ArrayPatches(p + q, index, fs, ts, cs) == UnderAll(p, ArrayPatches(q, index, fs, ts, cs))
    decreases ItemsHeight(fs) + 1, 0, |fs| + |ts|
  {
    if fs != [] && ts != [] {
      TailHeight(fs);
      Reassociate(p, q, Decimal(index));
      PatchesUnder(p, q + "/" + Decimal(index), fs[0], ts[0], cs);
      ArrayPatchesUnder(p, q, index + 1, fs[1..], ts[1..], cs);
      UnderAllConcat(p, CreatePatches(q + "/" + Decimal(index), fs[0], ts[0], cs),
                     ArrayPatches(q, index + 1, fs[1..], ts[1..], cs));
    } else if fs != [] {
      TailHeight(fs);
      Reassociate(p, q, Encode(Decimal(index)));
      ArrayPatchesUnder(p, q, index, fs[1..], ts, cs);
      UnderAllConcat(p, [Edit(Remove, q + "/" + Encode(Decimal(index)), None)],
                     ArrayPatches(q, index, fs[1..], ts, cs));
    } else if ts != [] {
      Reassociate(p, q, Encode("-"));
      ArrayPatchesUnder(p, q, index + 1, fs, ts[1..], cs);
      UnderAllConcat(p, [Edit(Add, q + "/" + Encode("-"), Some(ts[0]))],
                     ArrayPatches(q, index + 1, fs, ts[1..], cs));
    }
  }

  lemma {:induction false} ObjectPatchesUnder(p: string, q: string, fs: seq<Member>, ts: seq<Member>, cs: bool)
    ensures ObjectPatches(p + q, fs, ts, cs) == UnderAll(p, ObjectPatches(q, fs, ts, cs))
    decreases MembersHeight(fs) + 1, 0, |fs| + |ts|
  {
    if fs != [] || ts != [] {
      var diff := KeyDiff(fs, ts, cs);
      if diff == 0 {
        TailMembersHeight(fs);
        Reassociate(p, q, Encode(fs[0].key));
        PatchesUnder(p, q + "/" + Encode(fs[0].key), fs[0].value, ts[0].value, cs);
        ObjectPatchesUnder(p, q, fs[1..], ts[1..], cs);
        UnderAllConcat(p, CreatePatches(q + "/" + Encode(fs[0].key), fs[0].value, ts[0].value, cs),
                       ObjectPatches(q, fs[1..], ts[1..], cs));
      } else if diff < 0 {
        TailMembersHeight(fs);
        Reassociate(p, q, Encode(fs[0].key));
        ObjectPatchesUnder(p, q, fs[1..], ts, cs);
        UnderAllConcat(p, [Edit(Remove, q + "/" + Encode(fs[0].key), None)], ObjectPatches(q, fs[1..], ts, cs));
      } else {
        Reassociate(p, q, Encode(ts[0].key));
        ObjectPatchesUnder(p, q, fs, ts[1..], cs);
        UnderAllConcat(p, [Edit(Add, q + "/" + Encode(ts[0].key), Some(ts[0].value))],
                       ObjectPatches(q, fs, ts[1..], cs));
      }
    }
  }

  // ----- where the generated edits lie

  lemma BelowConcat(a: seq<Edit>, b: seq<Edit>, path: string)
    requires Below(a, path) && Below(b, path)
    ensures Below(a + b, path)
  {
  }

  lemma BelowWeaken(es: seq<Edit>, path: string, token: string)
    requires Below(es, path + "/" + token)
    ensures Below(es, path)
  {
    forall i | 0 <= i < |es| ensures path + "/" <= es[i].path {
      assert path + "/" <= path + "/" + token + "/" <= es[i].path;
    }
  }

  lemma {:induction false} PatchesBelow(path: string, f: Json, t: Json, cs: bool)
    requires !Differ(f, t)
    ensures Below(CreatePatches(path, f, t, cs), path)
    decreases Height(f), 1, 0
  {
    if f.Array? {
      ArrayPatchesBelow(path, 0, f.items, t.items, cs);
    } else if f.Object? {
      SortedHeights(f.members, cs);
      ObjectPatchesBelow(path, SortMembers(f.members, cs), SortMembers(t.members, cs), cs);
    }
  }

  lemma {:induction false} ChildPatchesBelow(path: string, token: string, f: Json, t: Json, cs: bool)
    ensures Below(CreatePatches(path + "/" + token, f, t, cs), path)
    decreases Height(f), 2, 0
  {
    if !Differ(f, t) {
      PatchesBelow(path + "/" + token, f, t, cs);
      BelowWeaken(CreatePatches(path + "/" + token, f, t, cs), path, token);
    }
  }

  lemma {:induction false} ArrayPatchesBelow(path: string, index: nat, fs: seq<Json>, ts: seq<Json>, cs: bool)
    ensures Below(ArrayPatches(path, index, fs, ts, cs), path)
    decreases ItemsHeight(fs) + 1, 0, |fs| + |ts|
  {
    if fs != [] && ts != [] {
      TailHeight(fs);
      ChildPatchesBelow(path, Decimal(index), fs[0], ts[0], cs);
      ArrayPatchesBelow(path, index + 1, fs[1..], ts[1..], cs);
      BelowConcat(CreatePatches(path + "/" + Decimal(index), fs[0], ts[0], cs),
                  ArrayPatches(path, index + 1, fs[1..], ts[1..], cs), path);
    } else if fs != [] {
      TailHeight(fs);
      ArrayPatchesBelow(path, index, fs[1..], ts, cs);
    } else if ts != [] {
      ArrayPatchesBelow(path, index + 1, fs, ts[1..], cs);
    }
  }

  lemma {:induction false} ObjectPatchesBelow(path: string, fs: seq<Member>, ts: seq<Member>, cs: bool)
    ensures Below(ObjectPatches(path, fs, ts, cs), path)
    decreases MembersHeight(fs) + 1, 0, |fs| + |ts|
  {
    if fs != [] || ts != [] {
      var diff := KeyDiff(fs, ts, cs);
      if diff == 0 {
        TailMembersHeight(fs);
        ChildPatchesBelow(path, Encode(fs[0].key), fs[0].value, ts[0].value, cs);
        ObjectPatchesBelow(path, fs[1..], ts[1..], cs);
        BelowConcat(CreatePatches(path + "/" + Encode(fs[0].key), fs[0].value, ts[0].value, cs),
                    ObjectPatches(path, fs[1..], ts[1..], cs), path);
      } else if diff < 0 {
        TailMembersHeight(fs);
        ObjectPatchesBelow(path, fs[1..], ts, cs);
      } else {
        ObjectPatchesBelow(path, fs, ts[1..], cs);
      }
    }
  }
}
