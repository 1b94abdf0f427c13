/**
 The patch round trip: applying the generated patches, in order, to the tree they were generated from
 succeeds and yields the target tree up to member order.
 */
module PatchRoundTrip {
  import opened CString
  import opened Sequences
  import opened Json
  import opened Sorting
  import opened Comparison
  import opened Pointer
  import opened PointerDecode
  import opened Patch
  import opened PatchDescent

  /** Every key survives the decoding done by `apply_patch`. */
  predicate KeysDecodeBack(v: Json) {
    match v
    case Array(items) => forall i :: 0 <= i < |items| ==> KeysDecodeBack(items[i])
    case Object(ms) => forall i :: 0 <= i < |ms| ==> DecodesBack(ms[i].key) && KeysDecodeBack(ms[i].value)
    case _ => true
  }

  /** What the source tree must satisfy: `detach_path` must find the right member even ignoring case. */
  predicate GoodFrom(v: Json) {
    Distinct(v, false) && IndexesFit(v) && KeysDecodeBack(v)
  }

  predicate GoodTo(v: Json, cs: bool) {
    Distinct(v, cs) && KeysDecodeBack(v)
  }

  /** The outcome wanted: status 0 and the meaning of `t`. */
  ghost predicate Yields(r: Applied, t: Json, cs: bool) {
    r.status == 0 && r.doc.Tree? && Meaning(r.doc.v, cs) == Meaning(t, cs)
  }

  lemma DifferIsExact(f: Json, t: Json, cs: bool)
    requires !Differ(f, t) && !f.Array? && !f.Object?
    ensures f == t
  {
    match (f, t)
    case (Number(m), Number(n)) => CompareDoubleExact(m, n);
    case (Str(a), Str(b)) => CompareZero(a, b);
    case _ =>
  }

  // ----- edits of one array element

  /** The path of a direct child: it splits into the root and the token. */
  lemma DirectChild(v: Json, token: string, cs: bool)
    requires '/' !in token
    ensures var p := "/" + token;
            && LastSlash(p) == 0 && p[..0] == "" && p[0 + 1..] == token
            && Resolve(v, p[..LastSlash(p)], cs) == Some([])
  {
    LastSlashToken(token);
    var p := "/" + token;
    assert p[0 + 1..] == token;
  }

  lemma DetachDirect(v: Json, token: string, cs: bool)
    requires '/' !in token
    ensures DetachPath(v, "/" + token, cs) == DetachChild(v, DecodeInPlace(token))
  {
    DirectChild(v, token, cs);
  }

  lemma AddDirect(v: Json, token: string, x: Json, cs: bool)
    requires '/' !in token
    ensures var (status, w) := AddChild(v, DecodeInPlace(token), x, cs);
            AddAtPath(v, "/" + token, x, cs) == Applied(status, Tree(w))
  {
    DirectChild(v, token, cs);
  }

  lemma PlainToken(token: string)
    requires '/' !in token && '~' !in token
    ensures Encode(token) == token
    ensures DecodeInPlace(token) == token
  {
    EncodePlain(token);
    PlainDecodesBack(token);
    DecodeUndoesEncode(token);
  }

  lemma DecimalToken(i: nat)
    requires i < SIZE_MODULUS
    ensures '/' !in Decimal(i) && '~' !in Decimal(i) && Decimal(i) != "-"
    ensures Encode(Decimal(i)) == Decimal(i)
    ensures DecodeInPlace(Decimal(i)) == Decimal(i)
    ensures DecodeIndex(Decimal(i)) == Some(i)
  {
    DecimalDigits(i);
    PlainToken(Decimal(i));
    DecodeIndexDecimal(i, "");
    assert Decimal(i) + "" == Decimal(i);
  }

  lemma IndexSelects(xs: seq<Json>, i: nat, cs: bool)
    requires i < |xs| && i < SIZE_MODULUS
    ensures Selects(Array(xs), Decimal(i), i, cs)
  {
    DecimalToken(i);
    forall rest | Rest(rest) ensures Step(Array(xs), Decimal(i) + rest, cs) == Some(i) {
      DecodeIndexDecimal(i, rest);
    }
  }

  /** Remove at an index. */
  lemma RemoveElement(xs: seq<Json>, i: nat, cs: bool)
    requires i < |xs| && i < SIZE_MODULUS
    ensures ApplyToTree(Array(xs), Edit(Remove, "/" + Encode(Decimal(i)), None), cs)
         == Applied(0, Tree(Array(RemoveAt(xs, i))))
  {
    DecimalToken(i);
    DetachDirect(Array(xs), Decimal(i), cs);
  }

  lemma DetachAtIndex(xs: seq<Json>, i: nat)
    requires i < |xs| && i < SIZE_MODULUS
    ensures DetachChild(Array(xs), Decimal(i)) == Some(Array(RemoveAt(xs, i)))
  {
    DecimalToken(i);
  }

  lemma AddAtIndex(xs: seq<Json>, i: nat, t: Json, cs: bool)
    requires i <= |xs| && i < SIZE_MODULUS
    ensures AddChild(Array(xs), Decimal(i), t, cs) == (0, Array(InsertAt(xs, i, t)))
  {
    DecimalToken(i);
  }

  lemma ReplaceIsDetachThenAdd(v: Json, p: string, t: Json, w: Json, cs: bool)
    requires p != "" && DetachPath(v, p, cs) == Some(w)
    ensures ApplyToTree(v, Edit(Replace, p, Some(t)), cs) == AddAtPath(w, p, t, cs)
  {
  }

  /** Replace at an index keeps the place. */
  lemma ReplaceElement(xs: seq<Json>, i: nat, t: Json, cs: bool)
    requires i < |xs| && i < SIZE_MODULUS
    ensures ApplyToTree(Array(xs), Edit(Replace, "/" + Decimal(i), Some(t)), cs)
         == Applied(0, Tree(Array(xs[i := t])))
  {
    DetachedAtIndex(xs, i, cs);
    AddedAtIndex(RemoveAt(xs, i), i, t, cs);
    ReplaceIsDetachThenAdd(Array(xs), "/" + Decimal(i), t, Array(RemoveAt(xs, i)), cs);
    RemoveThenInsert(xs, i, t);
  }

  lemma DetachedAtIndex(xs: seq<Json>, i: nat, cs: bool)
    requires i < |xs| && i < SIZE_MODULUS
    ensures DetachPath(Array(xs), "/" + Decimal(i), cs) == Some(Array(RemoveAt(xs, i)))
  {
    DecimalToken(i);
    DetachAtIndex(xs, i);
    DetachDirect(Array(xs), Decimal(i), cs);
  }

  lemma AddedAtIndex(xs: seq<Json>, i: nat, t: Json, cs: bool)
    requires i <= |xs| && i < SIZE_MODULUS
    ensures AddAtPath(Array(xs), "/" + Decimal(i), t, cs) == Applied(0, Tree(Array(InsertAt(xs, i, t))))
  {
    DecimalToken(i);
    AddAtIndex(xs, i, t, cs);
    AddDirect(Array(xs), Decimal(i), t, cs);
  }

  lemma RemoveThenInsert<T>(s: seq<T>, i: nat, x: T)
    requires i < |s|
    ensures InsertAt(RemoveAt(s, i), i, x) == s[i := x]
  {
  }

  lemma AppendElement(xs: seq<Json>, t: Json, cs: bool)
    ensures ApplyToTree(Array(xs), Edit(Add, "/" + Encode("-"), Some(t)), cs)
         == Applied(0, Tree(Array(xs + [t])))
  {
    PlainToken("-");
    AddDirect(Array(xs), "-", t, cs);
  }

  /** All edits of one element: the element becomes some `r` that means `t`. */
  lemma ElementEdits(xs: seq<Json>, i: nat, t: Json, cs: bool)
    returns (r: Json)
    requires i < |xs| && i < SIZE_MODULUS
    requires Yields(ApplyEdits(Tree(xs[i]), CreatePatches("", xs[i], t, cs), cs), t, cs)
    ensures Meaning(r, cs) == Meaning(t, cs)
    ensures ApplyEdits(Tree(Array(xs)), CreatePatches("" + "/" + Decimal(i), xs[i], t, cs), cs)
         == Applied(0, Tree(Array(xs[i := r])))
  {
    var f, token := xs[i], Decimal(i);
    assert "" + "/" + token == "/" + token;
    if Differ(f, t) {
      r := t;
      ReplaceElement(xs, i, t, cs);
      assert CreatePatches("/" + token, f, t, cs) == [Edit(Replace, "/" + token, Some(t))];
    } else {
      r := ApplyEdits(Tree(f), CreatePatches("", f, t, cs), cs).doc.v;
      PatchesUnder("/" + token, "", f, t, cs);
      assert "/" + token + "" == "/" + token;
      PatchesBelow("", f, t, cs);
      IndexSelects(xs, i, cs);
      EditsDescend(Array(xs), token, i, CreatePatches("", f, t, cs), cs);
    }
  }

  // ----- edits of one object member

  /** Looking the key up ignoring case finds this very member. */
  predicate Located(ms: seq<Member>, f: Member) {
    var i := Find(ms, f.key, false);
    i < |ms| && ms[i] == f
  }

  lemma LocatedFind(ms: seq<Member>, f: Member, cs: bool)
    requires Located(ms, f)
    ensures Find(ms, f.key, cs) == Find(ms, f.key, false)
  {
    FindIs(ms, f.key, cs, Find(ms, f.key, false));
  }

  lemma LocatedAfterRemove(ms: seq<Member>, f: Member, j: nat)
    requires Located(ms, f) && j < |ms| && Find(ms, f.key, false) != j
    ensures Located(RemoveAt(ms, j), f)
  {
    var i, r := Find(ms, f.key, false), RemoveAt(ms, j);
    var i' := if i < j then i else i - 1;
    forall m | 0 <= m < i' ensures Key(r[m].key, false) != Key(f.key, false) {
      assert r[m] == ms[if m < j then m else m + 1];
    }
    FindIs(r, f.key, false, i');
  }

  lemma LocatedAfterAppend(ms: seq<Member>, f: Member, x: Member)
    requires Located(ms, f)
    ensures Located(ms + [x], f)
  {
    FindIs(ms + [x], f.key, false, Find(ms, f.key, false));
  }

  lemma LocatedAfterSet(ms: seq<Member>, f: Member, j: nat, c: Json)
    requires Located(ms, f) && j < |ms| && Find(ms, f.key, false) != j
    ensures Located(ms[j := Member(ms[j].key, c)], f)
  {
    FindIs(ms[j := Member(ms[j].key, c)], f.key, false, Find(ms, f.key, false));
  }

  // meaning under the three changes

  lemma RemoveThenUpdate(m: map<string, Value>, gone: string, k: string, v: Value)
    requires gone != k
    ensures (m - {gone})[k := v] == m[k := v] - {gone}
  {
  }

  lemma UpdatesCommute(m: map<string, Value>, j: string, u: Value, k: string, v: Value)
    requires j != k
    ensures m[j := u][k := v] == m[k := v][j := u]
  {
  }

  lemma TailDistinct(ms: seq<Member>, cs: bool)
    requires ms != [] && DistinctKeys(ms, cs)
    ensures DistinctKeys(ms[1..], cs)
    ensures Key(ms[0].key, cs) !in MembersMeaning(ms[1..], cs)
  {
    MeaningKeys(ms[1..], cs);
  }

  lemma RemoveDistinct(ms: seq<Member>, i: nat, cs: bool)
    requires DistinctKeys(ms, cs) && i < |ms|
    ensures DistinctKeys(RemoveAt(ms, i), cs)
  {
  }

  lemma {:induction false} RemoveMeaning(ms: seq<Member>, i: nat, cs: bool)
    requires DistinctKeys(ms, cs) && i < |ms|
    ensures MembersMeaning(RemoveAt(ms, i), cs) == MembersMeaning(ms, cs) - {Key(ms[i].key, cs)}
    ensures DistinctKeys(RemoveAt(ms, i), cs)
  {
    var r, rest := RemoveAt(ms, i), ms[1..];
    RemoveDistinct(ms, i, cs);
    TailDistinct(ms, cs);
    if i == 0 {
      assert r == rest;
    } else {
      RemoveMeaning(rest, i - 1, cs);
      assert r[1..] == RemoveAt(rest, i - 1) && r[0] == ms[0];
      RemoveThenUpdate(MembersMeaning(rest, cs), Key(ms[i].key, cs), Key(ms[0].key, cs), Meaning(ms[0].value, cs));
    }
  }

  lemma AppendDistinct(ms: seq<Member>, x: Member, cs: bool)
    requires Find(ms, x.key, cs) == |ms| && DistinctKeys(ms, cs)
    ensures DistinctKeys(ms + [x], cs)
  {
  }

  lemma {:induction false} AppendMeaning(ms: seq<Member>, x: Member, cs: bool)
    requires Find(ms, x.key, cs) == |ms|
    ensures MembersMeaning(ms + [x], cs) == MembersMeaning(ms, cs)[Key(x.key, cs) := Meaning(x.value, cs)]
  {
    if ms == [] {
      assert ms + [x] == [x] && [x][1..] == [];
    } else {
      var rest := ms[1..];
      assert Key(ms[0].key, cs) != Key(x.key, cs);
      AppendMeaning(rest, x, cs);
      assert (ms + [x])[1..] == rest + [x];
      UpdatesCommute(MembersMeaning(rest, cs), Key(x.key, cs), Meaning(x.value, cs), Key(ms[0].key, cs), Meaning(ms[0].value, cs));
    }
  }

  lemma {:induction false} SetMeaning(ms: seq<Member>, i: nat, c: Json, cs: bool)
    requires DistinctKeys(ms, cs) && i < |ms|
    ensures MembersMeaning(ms[i := Member(ms[i].key, c)], cs) ==
            MembersMeaning(ms, cs)[Key(ms[i].key, cs) := Meaning(c, cs)]
    ensures DistinctKeys(ms[i := Member(ms[i].key, c)], cs)
  {
    var r, rest := ms[i := Member(ms[i].key, c)], ms[1..];
    TailDistinct(ms, cs);
    if i == 0 {
      assert r[1..] == rest;
    } else {
      SetMeaning(rest, i - 1, c, cs);
      assert r[1..] == rest[i - 1 := Member(ms[i].key, c)];
      UpdatesCommute(MembersMeaning(rest, cs), Key(ms[i].key, cs), Meaning(c, cs), Key(ms[0].key, cs), Meaning(ms[0].value, cs));
    }
  }

  lemma WithoutMeaning(ms: seq<Member>, key: string, cs: bool)
    requires DistinctKeys(ms, cs)
    ensures MembersMeaning(Without(ms, key, cs), cs) == MembersMeaning(ms, cs) - {Key(key, cs)}
    ensures DistinctKeys(Without(ms, key, cs), cs)
    ensures Find(Without(ms, key, cs), key, cs) == |Without(ms, key, cs)|
  {
    var i := Find(ms, key, cs);
    MeaningIsLookup(ms, key, cs);
    if i < |ms| {
      RemoveMeaning(ms, i, cs);
      MeaningIsLookup(RemoveAt(ms, i), key, cs);
    }
  }

  lemma KeyToken(key: string)
    requires DecodesBack(key)
    ensures '/' !in Encode(key) && DecodeInPlace(Encode(key)) == key
  {
    EncodeNoSlash(key);
    DecodeUndoesEncode(key);
  }

  lemma KeySelects(ms: seq<Member>, f: Member, cs: bool)
    requires Located(ms, f)
    ensures Selects(Object(ms), Encode(f.key), Find(ms, f.key, false), cs)
  {
    EncodeNoSlash(f.key);
    LocatedFind(ms, f, cs);
    forall rest | Rest(rest)
      ensures Step(Object(ms), Encode(f.key) + rest, cs) == Some(Find(ms, f.key, false))
    {
      MatchMemberIsFind(ms, f.key, rest, cs);
    }
  }

  lemma RemoveMember(ms: seq<Member>, f: Member, cs: bool)
    requires Located(ms, f) && DecodesBack(f.key)
    ensures ApplyToTree(Object(ms), Edit(Remove, "/" + Encode(f.key), None), cs)
         == Applied(0, Tree(Object(RemoveAt(ms, Find(ms, f.key, false)))))
  {
    KeyToken(f.key);
    DetachDirect(Object(ms), Encode(f.key), cs);
  }

  lemma AddMember(ms: seq<Member>, x: Member, cs: bool)
    requires DecodesBack(x.key)
    ensures ApplyToTree(Object(ms), Edit(Add, "/" + Encode(x.key), Some(x.value)), cs)
         == Applied(0, Tree(Object(Without(ms, x.key, cs) + [x])))
  {
    KeyToken(x.key);
    AddDirect(Object(ms), Encode(x.key), x.value, cs);
  }

  /** Replace moves the member to the end. */
  lemma ReplaceMember(ms: seq<Member>, f: Member, t: Json, cs: bool)
    requires Located(ms, f) && DecodesBack(f.key)
    ensures ApplyToTree(Object(ms), Edit(Replace, "/" + Encode(f.key), Some(t)), cs) ==
            Applied(0, Tree(Object(Without(RemoveAt(ms, Find(ms, f.key, false)), f.key, cs) + [Member(f.key, t)])))
  {
    KeyToken(f.key);
    DetachDirect(Object(ms), Encode(f.key), cs);
    AddDirect(Object(RemoveAt(ms, Find(ms, f.key, false))), Encode(f.key), t, cs);
    ReplaceIsDetachThenAdd(Object(ms), "/" + Encode(f.key), t, Object(RemoveAt(ms, Find(ms, f.key, false))), cs);
  }

  /** What a list of edits makes of the members `ms` while the members `pending` wait for theirs. */
  ghost predicate Advanced(ms: seq<Member>, ns: seq<Member>, k: string, v: Value, pending: seq<Member>, cs: bool) {
    && MembersMeaning(ns, cs) == MembersMeaning(ms, cs)[k := v]
    && DistinctKeys(ns, cs)
    && forall f :: f in pending ==> Located(ns, f)
  }

  /** All edits of one member: it comes to mean `t`, and the pending members stay where lookup finds them. */
  lemma MemberEdits(ms: seq<Member>, f: Member, t: Json, pending: seq<Member>, cs: bool)
    returns (ns: seq<Member>)
    requires DistinctKeys(ms, cs) && Located(ms, f) && DecodesBack(f.key)
    requires forall g :: g in pending ==> Located(ms, g) && Key(g.key, false) != Key(f.key, false)
    requires Yields(ApplyEdits(Tree(f.value), CreatePatches("", f.value, t, cs), cs), t, cs)
    ensures ApplyEdits(Tree(Object(ms)), CreatePatches("" + "/" + Encode(f.key), f.value, t, cs), cs)
         == Applied(0, Tree(Object(ns)))
    ensures Advanced(ms, ns, Key(f.key, cs), Meaning(t, cs), pending, cs)
  {
    assert "" + "/" + Encode(f.key) == "/" + Encode(f.key);
    if Differ(f.value, t) {
      ns := MemberReplaced(ms, f, t, pending, cs);
    } else {
      ns := MemberChanged(ms, f, t, pending, cs);
    }
  }

  lemma MemberReplaced(ms: seq<Member>, f: Member, t: Json, pending: seq<Member>, cs: bool)
    returns (ns: seq<Member>)
    requires DistinctKeys(ms, cs) && Located(ms, f) && DecodesBack(f.key) && Differ(f.value, t)
    requires forall g :: g in pending ==> Located(ms, g) && Key(g.key, false) != Key(f.key, false)
    ensures ApplyEdits(Tree(Object(ms)), CreatePatches("/" + Encode(f.key), f.value, t, cs), cs)
         == Applied(0, Tree(Object(ns)))
    ensures Advanced(ms, ns, Key(f.key, cs), Meaning(t, cs), pending, cs)
  {
    var i := Find(ms, f.key, false);
    var rest, x := RemoveAt(ms, i), Member(f.key, t);
    LocatedFind(ms, f, cs);
    ReplaceMember(ms, f, t, cs);
    RemoveMeaning(ms, i, cs);
    MeaningIsLookup(rest, f.key, cs);
    ns := rest + [x];
    AppendMeaning(rest, x, cs);
    AppendDistinct(rest, x, cs);
    OneEdit(Object(ms), Edit(Replace, "/" + Encode(f.key), Some(t)), cs);
    forall g | g in pending ensures Located(ns, g) {
      LocatedAfterRemove(ms, g, i);
      LocatedAfterAppend(rest, g, x);
    }
  }

  lemma MemberChanged(ms: seq<Member>, f: Member, t: Json, pending: seq<Member>, cs: bool)
    returns (ns: seq<Member>)
    requires DistinctKeys(ms, cs) && Located(ms, f) && !Differ(f.value, t)
    requires forall g :: g in pending ==> Located(ms, g) && Key(g.key, false) != Key(f.key, false)
    requires Yields(ApplyEdits(Tree(f.value), CreatePatches("", f.value, t, cs), cs), t, cs)
    ensures ApplyEdits(Tree(Object(ms)), CreatePatches("/" + Encode(f.key), f.value, t, cs), cs)
         == Applied(0, Tree(Object(ns)))
    ensures Advanced(ms, ns, Key(f.key, cs), Meaning(t, cs), pending, cs)
  {
    var token, i := Encode(f.key), Find(ms, f.key, false);
    var r := ApplyEdits(Tree(f.value), CreatePatches("", f.value, t, cs), cs).doc.v;
    PatchesUnder("/" + token, "", f.value, t, cs);
    assert "/" + token + "" == "/" + token;
    PatchesBelow("", f.value, t, cs);
    KeySelects(ms, f, cs);
    EditsDescend(Object(ms), token, i, CreatePatches("", f.value, t, cs), cs);
    ns := ms[i := Member(ms[i].key, r)];
    SetMeaning(ms, i, r, cs);
    forall g | g in pending ensures Located(ns, g) {
      LocatedAfterSet(ms, g, i, r);
    }
  }

  lemma AddEdit(ms: seq<Member>, x: Member, pending: seq<Member>, cs: bool) returns (ns: seq<Member>)
    requires DistinctKeys(ms, cs) && DecodesBack(x.key)
    requires forall g :: g in pending ==> Located(ms, g) && Key(g.key, cs) != Key(x.key, cs)
    ensures ApplyToTree(Object(ms), Edit(Add, "/" + Encode(x.key), Some(x.value)), cs) == Applied(0, Tree(Object(ns)))
    ensures Advanced(ms, ns, Key(x.key, cs), Meaning(x.value, cs), pending, cs)
  {
    AddMember(ms, x, cs);
    var rest := Without(ms, x.key, cs);
    WithoutMeaning(ms, x.key, cs);
    AppendMeaning(rest, x, cs);
    AppendDistinct(rest, x, cs);
    ns := rest + [x];
    forall g | g in pending ensures Located(ns, g) {
      LocatedAfterAdd(ms, x, g, cs);
    }
  }

  lemma LocatedAfterAdd(ms: seq<Member>, x: Member, g: Member, cs: bool)
    requires Located(ms, g) && Key(g.key, cs) != Key(x.key, cs)
    ensures Located(Without(ms, x.key, cs) + [x], g)
  {
    var j := Find(ms, x.key, cs);
    if j < |ms| {
      LocatedAfterRemove(ms, g, j);
    }
    LocatedAfterAppend(Without(ms, x.key, cs), g, x);
  }

  // ----- the induction

  lemma OneEdit(v: Json, e: Edit, cs: bool)
    requires ApplyToTree(v, e, cs).status == 0
    ensures ApplyEdits(Tree(v), [e], cs) == ApplyToTree(v, e, cs)
  {
    assert [e][1..] == [];
  }

  lemma ThenEdits(v: Json, w: Json, e: Edit, es: seq<Edit>, cs: bool)
    requires ApplyToTree(v, e, cs) == Applied(0, Tree(w))
    ensures ApplyEdits(Tree(v), [e] + es, cs) == ApplyEdits(Tree(w), es, cs)
  {
    assert ([e] + es)[1..] == es;
  }

  lemma ThenList(v: Json, w: Json, a: seq<Edit>, b: seq<Edit>, cs: bool)
    requires ApplyEdits(Tree(v), a, cs) == Applied(0, Tree(w))
    ensures ApplyEdits(Tree(v), a + b, cs) == ApplyEdits(Tree(w), b, cs)
  {
    ApplyConcat(Tree(v), a, b, cs);
  }

  ghost predicate AllGoodFrom(fs: seq<Json>) {
    forall x :: x in fs ==> GoodFrom(x)
  }

  ghost predicate AllGoodTo(ts: seq<Json>, cs: bool) {
    forall x :: x in ts ==> GoodTo(x, cs)
  }

  lemma ConsMeanings(r: Json, more: seq<Json>, ts: seq<Json>, cs: bool)
    requires ts != [] && Meaning(r, cs) == Meaning(ts[0], cs) && Meanings(more, cs) == Meanings(ts[1..], cs)
    ensures Meanings([r] + more, cs) == Meanings(ts, cs)
  {
    assert ([r] + more)[1..] == more;
  }

  /** The array loops, with the elements before `index` already done. */
  lemma {:induction false} ArrayRun(done: seq<Json>, fs: seq<Json>, ts: seq<Json>, cs: bool)
    returns (rs: seq<Json>)
    requires AllGoodFrom(fs) && AllGoodTo(ts, cs)
    requires fs == [] || |done| + |fs| <= SIZE_MODULUS
    ensures ApplyEdits(Tree(Array(done + fs)), ArrayPatches("", |done|, fs, ts, cs), cs)
         == Applied(0, Tree(Array(done + rs)))
    ensures Meanings(rs, cs) == Meanings(ts, cs)
    decreases ItemsHeight(fs) + 1, 0, 2 * (|fs| + |ts|)
  {
    if fs != [] && ts != [] {
      rs := ArrayRunBoth(done, fs, ts, cs);
    } else if fs != [] {
      rs := ArrayRunRemove(done, fs, ts, cs);
    } else if ts != [] {
      rs := ArrayRunAdd(done, fs, ts, cs);
    } else {
      rs := [];
    }
  }

  lemma {:induction false} ArrayRunBoth(done: seq<Json>, fs: seq<Json>, ts: seq<Json>, cs: bool)
    returns (rs: seq<Json>)
    requires AllGoodFrom(fs) && AllGoodTo(ts, cs) && |done| + |fs| <= SIZE_MODULUS
    requires fs != [] && ts != []
    ensures ApplyEdits(Tree(Array(done + fs)), ArrayPatches("", |done|, fs, ts, cs), cs)
         == Applied(0, Tree(Array(done + rs)))
    ensures Meanings(rs, cs) == Meanings(ts, cs)
    decreases ItemsHeight(fs) + 1, 0, 2 * (|fs| + |ts|) - 1
  {
    var index, xs, fs', ts' := |done|, done + fs, fs[1..], ts[1..];
    TailHeight(fs);
    PatchRun(fs[0], ts[0], cs);
    assert xs[index] == fs[0];
    var r := ElementEdits(xs, index, ts[0], cs);
    var more := ArrayRun(done + [r], fs', ts', cs);
    SetAfter(done, fs, r);
    Regroup(done, r, more);
    ArrayBothDone(xs, done + [r] + fs', done + [r] + more, index, fs, ts, cs);
    ConsMeanings(r, more, ts, cs);
    rs := [r] + more;
  }

  lemma SetAfter<T>(done: seq<T>, fs: seq<T>, r: T)
    requires fs != []
    ensures (done + fs)[|done| := r] == done + [r] + fs[1..]
  {
  }

  lemma Regroup<T>(done: seq<T>, r: T, more: seq<T>)
    ensures done + [r] + more == done + ([r] + more)
  {
  }

  lemma ArrayBothDone(xs: seq<Json>, mid: seq<Json>, ys: seq<Json>, index: nat, fs: seq<Json>, ts: seq<Json>, cs: bool)
    requires fs != [] && ts != []
    requires ApplyEdits(Tree(Array(xs)), CreatePatches("" + "/" + Decimal(index), fs[0], ts[0], cs), cs)
          == Applied(0, Tree(Array(mid)))
    requires ApplyEdits(Tree(Array(mid)), ArrayPatches("", index + 1, fs[1..], ts[1..], cs), cs)
          == Applied(0, Tree(Array(ys)))
    ensures ApplyEdits(Tree(Array(xs)), ArrayPatches("", index, fs, ts, cs), cs) == Applied(0, Tree(Array(ys)))
  {
    ThenList(Array(xs), Array(mid), CreatePatches("" + "/" + Decimal(index), fs[0], ts[0], cs),
             ArrayPatches("", index + 1, fs[1..], ts[1..], cs), cs);
  }

  lemma {:induction false} ArrayRunRemove(done: seq<Json>, fs: seq<Json>, ts: seq<Json>, cs: bool)
    returns (rs: seq<Json>)
    requires AllGoodFrom(fs) && AllGoodTo(ts, cs) && |done| + |fs| <= SIZE_MODULUS
    requires fs != [] && ts == []
    ensures ApplyEdits(Tree(Array(done + fs)), ArrayPatches("", |done|, fs, ts, cs), cs)
         == Applied(0, Tree(Array(done + rs)))
    ensures Meanings(rs, cs) == Meanings(ts, cs)
    decreases ItemsHeight(fs) + 1, 0, 2 * (|fs| + |ts|) - 1
  {
    var index, xs, fs' := |done|, done + fs, fs[1..];
    TailHeight(fs);
    RemoveElement(xs, index, cs);
    assert RemoveAt(xs, index) == done + fs';
    assert "" + "/" + Encode(Decimal(index)) == "/" + Encode(Decimal(index));
    rs := ArrayRun(done, fs', ts, cs);
    ThenEdits(Array(xs), Array(done + fs'), Edit(Remove, "" + "/" + Encode(Decimal(index)), None),
              ArrayPatches("", index, fs', ts, cs), cs);
  }

  lemma {:induction false} ArrayRunAdd(done: seq<Json>, fs: seq<Json>, ts: seq<Json>, cs: bool)
    returns (rs: seq<Json>)
    requires AllGoodFrom(fs) && AllGoodTo(ts, cs)
    requires fs == [] && ts != []
    ensures ApplyEdits(Tree(Array(done + fs)), ArrayPatches("", |done|, fs, ts, cs), cs)
         == Applied(0, Tree(Array(done + rs)))
    ensures Meanings(rs, cs) == Meanings(ts, cs)
    decreases ItemsHeight(fs) + 1, 0, 2 * (|fs| + |ts|) - 1
  {
    var next := done + [ts[0]];
    var more := ArrayRun(next, fs, ts[1..], cs);
    assert done + fs == done && next + fs == next;
    Regroup(done, ts[0], more);
    ArrayAddDone(done, next + more, fs, ts, cs);
    ConsMeanings(ts[0], more, ts, cs);
    rs := [ts[0]] + more;
  }

  lemma ArrayAddDone(done: seq<Json>, ys: seq<Json>, fs: seq<Json>, ts: seq<Json>, cs: bool)
    requires fs == [] && ts != []
    requires ApplyEdits(Tree(Array(done + [ts[0]])), ArrayPatches("", |done| + 1, fs, ts[1..], cs), cs)
          == Applied(0, Tree(Array(ys)))
    ensures ApplyEdits(Tree(Array(done)), ArrayPatches("", |done|, fs, ts, cs), cs) == Applied(0, Tree(Array(ys)))
  {
    AppendElement(done, ts[0], cs);
    assert "" + "/" + Encode("-") == "/" + Encode("-");
    ThenEdits(Array(done), Array(done + [ts[0]]), Edit(Add, "" + "/" + Encode("-"), Some(ts[0])),
              ArrayPatches("", |done| + 1, fs, ts[1..], cs), cs);
  }

  ghost function Dom(ms: seq<Member>, cs: bool): set<string> {
    MembersMeaning(ms, cs).Keys
  }

  lemma HeadMeaning(ms: seq<Member>, cs: bool)
    requires ms != [] && Increasing(ms, cs)
    ensures MembersMeaning(ms, cs) == MembersMeaning(ms[1..], cs)[Key(ms[0].key, cs) := Meaning(ms[0].value, cs)]
    ensures Key(ms[0].key, cs) !in MembersMeaning(ms[1..], cs)
    ensures Increasing(ms[1..], cs)
  {
    MeaningKeys(ms[1..], cs);
    Trichotomy(Key(ms[0].key, cs), Key(ms[0].key, cs));
  }

  /** A key below the front of an increasing list is not in it. */
  lemma NotAhead(ms: seq<Member>, k: string, cs: bool)
    requires Increasing(ms, cs) && (ms == [] || Less(k, Key(ms[0].key, cs)))
    ensures k !in MembersMeaning(ms, cs)
    ensures forall f :: f in ms ==> Key(f.key, cs) != k
  {
    MeaningKeys(ms, cs);
    Trichotomy(k, k);
    forall i | 0 <= i < |ms| ensures Key(ms[i].key, cs) != k {
      if i > 0 {
        LessTransitive(k, Key(ms[0].key, cs), Key(ms[i].key, cs));
      }
    }
  }

  lemma TailGoodFrom(fs: seq<Member>)
    requires fs != [] && GoodFrom(Object(fs))
    ensures GoodFrom(Object(fs[1..])) && GoodFrom(fs[0].value) && DecodesBack(fs[0].key)
    ensures forall g :: g in fs[1..] ==> Key(g.key, false) != Key(fs[0].key, false)
  {
  }

  lemma TailGoodTo(ts: seq<Member>, cs: bool)
    requires ts != [] && GoodTo(Object(ts), cs)
    ensures GoodTo(Object(ts[1..]), cs) && GoodTo(ts[0].value, cs) && DecodesBack(ts[0].key)
  {
  }

  /** The bookkeeping of the three cases, on meanings. */
  lemma BothBooks(m: map<string, Value>, fs: set<string>, ts: map<string, Value>, k: string, v: Value)
    requires k !in fs
    ensures (m[k := v] - fs) + ts == (m - (fs + {k})) + ts[k := v] || k in ts
  {
    if k !in ts {
      assert (m[k := v] - fs) + ts == (m - (fs + {k})) + ts[k := v];
    }
  }

  lemma RemoveBooks(m: map<string, Value>, fs: set<string>, ts: map<string, Value>, k: string)
    ensures ((m - {k}) - fs) + ts == (m - (fs + {k})) + ts
  {
  }

  lemma AddBooks(m: map<string, Value>, fs: set<string>, ts: map<string, Value>, k: string, v: Value)
    requires k !in fs && k !in ts
    ensures (m[k := v] - fs) + ts == (m - fs) + ts[k := v]
  {
  }

  /**
   The merge loop over sorted members. The pending source members `fs` are where lookup finds them;
   at the end they are gone from the meaning and the target members `ts` are in it.
   */
  lemma {:induction false} ObjectRun(ms: seq<Member>, fs: seq<Member>, ts: seq<Member>, cs: bool)
    returns (ns: seq<Member>)
    requires GoodFrom(Object(fs)) && GoodTo(Object(ts), cs)
    requires Increasing(fs, cs) && Increasing(ts, cs) && DistinctKeys(ms, cs)
    requires forall f :: f in fs ==> Located(ms, f)
    ensures ApplyEdits(Tree(Object(ms)), ObjectPatches("", fs, ts, cs), cs) == Applied(0, Tree(Object(ns)))
    ensures MembersMeaning(ns, cs) == (MembersMeaning(ms, cs) - Dom(fs, cs)) + MembersMeaning(ts, cs)
    decreases MembersHeight(fs) + 1, 0, 2 * (|fs| + |ts|)
  {
    if fs == [] && ts == [] {
      ns := ms;
    } else {
      var diff := KeyDiff(fs, ts, cs);
      if diff == 0 {
        ns := ObjectRunBoth(ms, fs, ts, cs);
      } else if diff < 0 {
        ns := ObjectRunRemove(ms, fs, ts, cs);
      } else {
        ns := ObjectRunAdd(ms, fs, ts, cs);
      }
    }
  }

  lemma {:induction false} ObjectRunBoth(ms: seq<Member>, fs: seq<Member>, ts: seq<Member>, cs: bool)
    returns (ns: seq<Member>)
    requires GoodFrom(Object(fs)) && GoodTo(Object(ts), cs)
    requires Increasing(fs, cs) && Increasing(ts, cs) && DistinctKeys(ms, cs)
    requires forall f :: f in fs ==> Located(ms, f)
    requires fs != [] && ts != [] && KeyDiff(fs, ts, cs) == 0
    ensures ApplyEdits(Tree(Object(ms)), ObjectPatches("", fs, ts, cs), cs) == Applied(0, Tree(Object(ns)))
    ensures MembersMeaning(ns, cs) == (MembersMeaning(ms, cs) - Dom(fs, cs)) + MembersMeaning(ts, cs)
    decreases MembersHeight(fs) + 1, 0, 2 * (|fs| + |ts|) - 1
  {
    var f, t := fs[0], ts[0];
    var fs', ts' := fs[1..], ts[1..];
    TailMembersHeight(fs);
    CompareZero(Key(f.key, cs), Key(t.key, cs));
    HeadMeaning(fs, cs);
    HeadMeaning(ts, cs);
    TailGoodFrom(fs);
    TailGoodTo(ts, cs);
    PatchRun(f.value, t.value, cs);
    var mid := MemberEdits(ms, f, t.value, fs', cs);
    ns := ObjectRun(mid, fs', ts', cs);
    ObjectBothDone(ms, mid, ns, fs, ts, cs);
  }

  lemma ObjectBothDone(ms: seq<Member>, mid: seq<Member>, ns: seq<Member>, fs: seq<Member>, ts: seq<Member>, cs: bool)
    requires Increasing(fs, cs) && Increasing(ts, cs)
    requires fs != [] && ts != [] && KeyDiff(fs, ts, cs) == 0
    requires ApplyEdits(Tree(Object(ms)), CreatePatches("" + "/" + Encode(fs[0].key), fs[0].value, ts[0].value, cs), cs)
          == Applied(0, Tree(Object(mid)))
    requires MembersMeaning(mid, cs) == MembersMeaning(ms, cs)[Key(fs[0].key, cs) := Meaning(ts[0].value, cs)]
    requires ApplyEdits(Tree(Object(mid)), ObjectPatches("", fs[1..], ts[1..], cs), cs) == Applied(0, Tree(Object(ns)))
    requires MembersMeaning(ns, cs) == (MembersMeaning(mid, cs) - Dom(fs[1..], cs)) + MembersMeaning(ts[1..], cs)
    ensures ApplyEdits(Tree(Object(ms)), ObjectPatches("", fs, ts, cs), cs) == Applied(0, Tree(Object(ns)))
    ensures MembersMeaning(ns, cs) == (MembersMeaning(ms, cs) - Dom(fs, cs)) + MembersMeaning(ts, cs)
  {
    var f, t := fs[0], ts[0];
    CompareZero(Key(f.key, cs), Key(t.key, cs));
    HeadMeaning(fs, cs);
    HeadMeaning(ts, cs);
    ThenList(Object(ms), Object(mid), CreatePatches("" + "/" + Encode(f.key), f.value, t.value, cs),
             ObjectPatches("", fs[1..], ts[1..], cs), cs);
    assert Dom(fs, cs) == Dom(fs[1..], cs) + {Key(f.key, cs)};
    BothBooks(MembersMeaning(ms, cs), Dom(fs[1..], cs), MembersMeaning(ts[1..], cs), Key(f.key, cs), Meaning(t.value, cs));
  }

  lemma {:induction false} ObjectRunRemove(ms: seq<Member>, fs: seq<Member>, ts: seq<Member>, cs: bool)
    returns (ns: seq<Member>)
    requires GoodFrom(Object(fs)) && GoodTo(Object(ts), cs)
    requires Increasing(fs, cs) && Increasing(ts, cs) && DistinctKeys(ms, cs)
    requires forall f :: f in fs ==> Located(ms, f)
    requires fs != [] && KeyDiff(fs, ts, cs) < 0
    ensures ApplyEdits(Tree(Object(ms)), ObjectPatches("", fs, ts, cs), cs) == Applied(0, Tree(Object(ns)))
    ensures MembersMeaning(ns, cs) == (MembersMeaning(ms, cs) - Dom(fs, cs)) + MembersMeaning(ts, cs)
    decreases MembersHeight(fs) + 1, 0, 2 * (|fs| + |ts|) - 1
  {
    var f, fs' := fs[0], fs[1..];
    TailMembersHeight(fs);
    HeadMeaning(fs, cs);
    TailGoodFrom(fs);
    var i := Find(ms, f.key, false);
    LocatedFind(ms, f, cs);
    RemoveMember(ms, f, cs);
    RemoveMeaning(ms, i, cs);
    forall g | g in fs' ensures Located(RemoveAt(ms, i), g) {
      LocatedAfterRemove(ms, g, i);
    }
    ns := ObjectRun(RemoveAt(ms, i), fs', ts, cs);
    ObjectRemoveDone(ms, RemoveAt(ms, i), ns, fs, ts, cs);
  }

  lemma ObjectRemoveDone(ms: seq<Member>, mid: seq<Member>, ns: seq<Member>, fs: seq<Member>, ts: seq<Member>, cs: bool)
    requires Increasing(fs, cs) && fs != [] && KeyDiff(fs, ts, cs) < 0
    requires ApplyToTree(Object(ms), Edit(Remove, "/" + Encode(fs[0].key), None), cs) == Applied(0, Tree(Object(mid)))
    requires MembersMeaning(mid, cs) == MembersMeaning(ms, cs) - {Key(fs[0].key, cs)}
    requires ApplyEdits(Tree(Object(mid)), ObjectPatches("", fs[1..], ts, cs), cs) == Applied(0, Tree(Object(ns)))
    requires MembersMeaning(ns, cs) == (MembersMeaning(mid, cs) - Dom(fs[1..], cs)) + MembersMeaning(ts, cs)
    ensures ApplyEdits(Tree(Object(ms)), ObjectPatches("", fs, ts, cs), cs) == Applied(0, Tree(Object(ns)))
    ensures MembersMeaning(ns, cs) == (MembersMeaning(ms, cs) - Dom(fs, cs)) + MembersMeaning(ts, cs)
  {
    var f := fs[0];
    HeadMeaning(fs, cs);
    assert "" + "/" + Encode(f.key) == "/" + Encode(f.key);
    ThenEdits(Object(ms), Object(mid), Edit(Remove, "" + "/" + Encode(f.key), None),
              ObjectPatches("", fs[1..], ts, cs), cs);
    assert Dom(fs, cs) == Dom(fs[1..], cs) + {Key(f.key, cs)};
    RemoveBooks(MembersMeaning(ms, cs), Dom(fs[1..], cs), MembersMeaning(ts, cs), Key(f.key, cs));
  }

  lemma {:induction false} ObjectRunAdd(ms: seq<Member>, fs: seq<Member>, ts: seq<Member>, cs: bool)
    returns (ns: seq<Member>)
    requires GoodFrom(Object(fs)) && GoodTo(Object(ts), cs)
    requires Increasing(fs, cs) && Increasing(ts, cs) && DistinctKeys(ms, cs)
    requires forall f :: f in fs ==> Located(ms, f)
    requires ts != [] && KeyDiff(fs, ts, cs) > 0
    ensures ApplyEdits(Tree(Object(ms)), ObjectPatches("", fs, ts, cs), cs) == Applied(0, Tree(Object(ns)))
    ensures MembersMeaning(ns, cs) == (MembersMeaning(ms, cs) - Dom(fs, cs)) + MembersMeaning(ts, cs)
    decreases MembersHeight(fs) + 1, 0, 2 * (|fs| + |ts|) - 1
  {
    var t, ts' := ts[0], ts[1..];
    HeadMeaning(ts, cs);
    TailGoodTo(ts, cs);
    if fs != [] {
      CompareSymmetric(Key(fs[0].key, cs), Key(t.key, cs));
    }
    NotAhead(fs, Key(t.key, cs), cs);
    var mid := AddEdit(ms, t, fs, cs);
    ns := ObjectRun(mid, fs, ts', cs);
    ObjectAddDone(ms, mid, ns, fs, ts, cs);
  }

  lemma ObjectAddDone(ms: seq<Member>, mid: seq<Member>, ns: seq<Member>, fs: seq<Member>, ts: seq<Member>, cs: bool)
    requires Increasing(ts, cs) && ts != [] && KeyDiff(fs, ts, cs) > 0 && Key(ts[0].key, cs) !in Dom(fs, cs)
    requires ApplyToTree(Object(ms), Edit(Add, "/" + Encode(ts[0].key), Some(ts[0].value)), cs)
          == Applied(0, Tree(Object(mid)))
    requires MembersMeaning(mid, cs) == MembersMeaning(ms, cs)[Key(ts[0].key, cs) := Meaning(ts[0].value, cs)]
    requires ApplyEdits(Tree(Object(mid)), ObjectPatches("", fs, ts[1..], cs), cs) == Applied(0, Tree(Object(ns)))
    requires MembersMeaning(ns, cs) == (MembersMeaning(mid, cs) - Dom(fs, cs)) + MembersMeaning(ts[1..], cs)
    ensures ApplyEdits(Tree(Object(ms)), ObjectPatches("", fs, ts, cs), cs) == Applied(0, Tree(Object(ns)))
    ensures MembersMeaning(ns, cs) == (MembersMeaning(ms, cs) - Dom(fs, cs)) + MembersMeaning(ts, cs)
  {
    var t := ts[0];
    HeadMeaning(ts, cs);
    assert "" + "/" + Encode(t.key) == "/" + Encode(t.key);
    ThenEdits(Object(ms), Object(mid), Edit(Add, "" + "/" + Encode(t.key), Some(t.value)),
              ObjectPatches("", fs, ts[1..], cs), cs);
    AddBooks(MembersMeaning(ms, cs), Dom(fs, cs), MembersMeaning(ts[1..], cs), Key(t.key, cs), Meaning(t.value, cs));
  }

  /** Sorting keeps what the source tree must satisfy. */
  lemma SortedGoodFrom(ms: seq<Member>, cs: bool)
    requires GoodFrom(Object(ms))
    ensures GoodFrom(Object(SortMembers(ms, cs)))
    ensures Increasing(SortMembers(ms, cs), cs)
    ensures MembersMeaning(SortMembers(ms, cs), cs) == MembersMeaning(ms, cs)
    ensures forall f :: f in SortMembers(ms, cs) ==> Located(ms, f)
  {
    DistinctWeaken(Object(ms), cs);
    var s := SortMembers(ms, cs);
    SortMembersCorrect(ms, cs);
    PermutedDistinct(ms, s, false);
    forall i | 0 <= i < |s|
      ensures Distinct(s[i].value, false) && IndexesFit(s[i].value) && DecodesBack(s[i].key) && KeysDecodeBack(s[i].value)
    {
      assert s[i] in ms;
    }
    forall f | f in s ensures Located(ms, f) {
      assert f in ms;
      var i :| 0 <= i < |ms| && ms[i] == f;
      FindIs(ms, f.key, false, i);
    }
  }

  lemma SortedGoodTo(ms: seq<Member>, cs: bool)
    requires GoodTo(Object(ms), cs)
    ensures GoodTo(Object(SortMembers(ms, cs)), cs)
    ensures Increasing(SortMembers(ms, cs), cs)
    ensures MembersMeaning(SortMembers(ms, cs), cs) == MembersMeaning(ms, cs)
  {
    var s := SortMembers(ms, cs);
    SortMembersCorrect(ms, cs);
    forall i | 0 <= i < |s|
      ensures Distinct(s[i].value, cs) && DecodesBack(s[i].key) && KeysDecodeBack(s[i].value)
    {
      assert s[i] in ms;
    }
  }

  lemma ItemsGood(fs: seq<Json>, ts: seq<Json>, cs: bool)
    requires GoodFrom(Array(fs)) && GoodTo(Array(ts), cs)
    ensures AllGoodFrom(fs) && AllGoodTo(ts, cs)
  {
  }

  /** The round trip on edits. */
  lemma {:induction false} PatchRun(f: Json, t: Json, cs: bool)
    requires GoodFrom(f) && GoodTo(t, cs)
    ensures Yields(ApplyEdits(Tree(f), CreatePatches("", f, t, cs), cs), t, cs)
    decreases Height(f), 1, 0
  {
    if Differ(f, t) {
      assert CreatePatches("", f, t, cs) == [Edit(Replace, "", Some(t))];
    } else if f.Array? {
      ItemsGood(f.items, t.items, cs);
      var rs := ArrayRun([], f.items, t.items, cs);
      assert [] + f.items == f.items && [] + rs == rs;
    } else if f.Object? {
      PatchRunObject(f.members, t.members, cs);
    } else {
      DifferIsExact(f, t, cs);
    }
  }

  lemma {:induction false} PatchRunObject(fm: seq<Member>, tm: seq<Member>, cs: bool)
    requires GoodFrom(Object(fm)) && GoodTo(Object(tm), cs)
    ensures Yields(ApplyEdits(Tree(Object(fm)), CreatePatches("", Object(fm), Object(tm), cs), cs), Object(tm), cs)
    decreases MembersHeight(fm) + 1, 0, 2 * (|fm| + |tm|) + 1
  {
    SortedHeights(fm, cs);
    SortedGoodFrom(fm, cs);
    SortedGoodTo(tm, cs);
    DistinctWeaken(Object(fm), cs);
    var fs, ts := SortMembers(fm, cs), SortMembers(tm, cs);
    var ns := ObjectRun(fm, fs, ts, cs);
    AllReplaced(MembersMeaning(fm, cs), MembersMeaning(ts, cs));
    ObjectPatchesAre(fm, tm, cs);
  }

  lemma AllReplaced(m: map<string, Value>, n: map<string, Value>)
    ensures (m - m.Keys) + n == n
  {
  }

  lemma ObjectPatchesAre(fm: seq<Member>, tm: seq<Member>, cs: bool)
    ensures CreatePatches("", Object(fm), Object(tm), cs) ==
            ObjectPatches("", SortMembers(fm, cs), SortMembers(tm, cs), cs)
  {
  }

  lemma {:induction false} PatchesEmitted(f: Json, t: Json, cs: bool)
    ensures forall i :: 0 <= i < |CreatePatches("", f, t, cs)| ==> Emitted(CreatePatches("", f, t, cs)[i])
  {
    if !Differ(f, t) {
      PatchesBelow("", f, t, cs);
    }
  }

  /**
   Applying the generated patch array to a copy of `from` returns 0 and yields `to` up to member
   order. `from` needs sibling keys that differ after folding (`detach_path` ignores case), `to` needs
   them distinct in the chosen mode, and keys must be ones that `decode_pointer_inplace` gets right.
   */
  lemma PatchesRoundTrip(from: Json, to: Json, cs: bool)
    requires GoodFrom(from) && GoodTo(to, cs)
    ensures var patches := GeneratePatches(from, to, cs);
            && Applicable(patches, cs)
            && Yields(ApplyPatches(Tree(from), patches, cs), to, cs)
  {
    PatchesEmitted(from, to, cs);
    ApplyComposed(Tree(from), CreatePatches("", from, to, cs), cs);
    PatchRun(from, to, cs);
  }
}
