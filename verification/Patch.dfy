/**
 JSON Patch (RFC 6902, section 4): generating the patches that turn one tree into another and
 applying them, as `create_patches` and `apply_patch` do it.
 */
module Patch {
  import opened CString
  import opened Sequences
  import opened Json
  import opened Sorting
  import opened Comparison
  import opened SortEffects
  import opened Pointer
  import opened PointerDecode

  // ----- places in a tree

  function Get(v: Json, loc: Loc): Json
    requires ValidLoc(v, loc)
    decreases Height(v)
  {
    if loc == [] then v else Get(Child(v, loc[0]), loc[1..])
  }

  function SetChild(v: Json, i: nat, c: Json): Json
    requires i < ChildCount(v)
  {
    match v
    case Array(items) => Array(items[i := c])
    case Object(ms) => Object(ms[i := Member(ms[i].key, c)])
  }

  function Put(v: Json, loc: Loc, c: Json): Json
    requires ValidLoc(v, loc)
    decreases Height(v)
  {
    if loc == [] then c else SetChild(v, loc[0], Put(Child(v, loc[0]), loc[1..], c))
  }

  /** `cJSON_DeleteItemFromObject` and its case-sensitive variant. */
  function Without(ms: seq<Member>, key: string, cs: bool): seq<Member> {
    var i := Find(ms, key, cs);
    if i < |ms| then RemoveAt(ms, i) else ms
  }

  // ----- patches

  datatype Op = Add | Remove | Replace | Move | Copy | Test | Malformed

  datatype Edit = Edit(op: Op, path: string, value: Option<Json>)

  /** The document: a tree, or the item of invalid type left when its root has been removed. */
  datatype Document = Tree(v: Json) | InvalidItem

  datatype Applied = Applied(status: nat, doc: Document)

  /** Where a path splits into parent and child: its last slash, or `|p|`. */
  function LastSlash(p: string): (r: nat)
    ensures r <= |p|
    ensures r < |p| ==> p[r] == '/' && '/' !in p[r + 1..]
    ensures r == |p| ==> '/' !in p
  {
    if p == "" then 0
    else
      var r := LastSlash(p[1..]);
      if r < |p| - 1 then
        assert p[1..][r + 1..] == p[r + 2..];
        1 + r
      else if p[0] == '/' then 0 else |p|
  }

  /** Removing a child from its parent: an object is searched ignoring case, whatever the mode. */
  function DetachChild(parent: Json, child: string): Option<Json> {
    match parent
    case Array(items) =>
      var index := DecodeIndex(child);
      if index.Some? && index.value < |items| then Some(Array(RemoveAt(items, index.value))) else None
    case Object(ms) =>
      var i := Find(ms, child, false);
      if i < |ms| then Some(Object(RemoveAt(ms, i))) else None
    case _ => None
  }

  /** `detach_path` followed by `cJSON_Delete`. */
  function DetachPath(v: Json, path: string, cs: bool): Option<Json> {
    var k := LastSlash(path);
    var at := Resolve(v, path[..k], cs);
    if k == |path| || at.None? then None
    else
      var parent := DetachChild(Get(v, at.value), DecodeInPlace(path[k + 1..]));
      if parent.None? then None else Some(Put(v, at.value, parent.value))
  }

  /** Adding a child to its parent: the status and the parent. */
  function AddChild(parent: Json, child: string, value: Json, cs: bool): (nat, Json) {
    match parent
    case Array(items) =>
      if child == "-" then (0, Array(items + [value]))
      else
        var index := DecodeIndex(child);
        if index.None? then (11, parent)
        else if index.value > |items| then (10, parent)
        else (0, Array(InsertAt(items, index.value, value)))
    case Object(ms) => (0, Object(Without(ms, child, cs) + [Member(child, value)]))
    case _ => (9, parent)
  }

  /** The last part of `apply_patch`: put the value at the path. */
  function AddAtPath(v: Json, path: string, value: Json, cs: bool): Applied {
    var k := LastSlash(path);
    var at := Resolve(v, path[..k], cs);
    if k == |path| || at.None? then Applied(9, Tree(v))
    else
      var (status, parent) := AddChild(Get(v, at.value), DecodeInPlace(path[k + 1..]), value, cs);
      Applied(status, Tree(Put(v, at.value, parent)))
  }

  function ApplyToTree(v: Json, e: Edit, cs: bool): Applied {
    if e.path == "" && e.op == Remove then Applied(0, InvalidItem)
    else if e.path == "" then
      if e.value.None? then Applied(7, Tree(v)) else Applied(0, Tree(e.value.value))
    else if e.op == Add then
      if e.value.None? then Applied(7, Tree(v)) else AddAtPath(v, e.path, e.value.value, cs)
    else
      var rest := DetachPath(v, e.path, cs);
      if rest.None? then Applied(13, Tree(v))
      else if e.op == Remove then Applied(0, Tree(rest.value))
      else if e.value.None? then Applied(7, Tree(rest.value))
      else AddAtPath(rest.value, e.path, e.value.value, cs)
  }

  /** On an item of invalid type only the root can be written. */
  function ApplyToInvalid(e: Edit): Applied {
    if e.path == "" && e.op == Remove then Applied(0, InvalidItem)
    else if e.op != Add && e.path != "" then Applied(13, InvalidItem)
    else if e.value.None? then Applied(7, InvalidItem)
    else if e.path == "" then Applied(0, Tree(e.value.value))
    else Applied(9, InvalidItem)
  }

  function ApplyEdit(d: Document, e: Edit, cs: bool): Applied {
    match d
    case Tree(v) => ApplyToTree(v, e, cs)
    case InvalidItem => ApplyToInvalid(e)
  }

  // ----- move, copy and test

  /** The child that `DetachChild` takes out. */
  function DetachedChild(parent: Json, child: string): Json
    requires DetachChild(parent, child).Some?
  {
    match parent
    case Array(items) => items[DecodeIndex(child).value]
    case Object(ms) => ms[Find(ms, child, false)].value
  }

  /** What `detach_path` returns. */
  function DetachedAt(v: Json, path: string, cs: bool): Json
    requires DetachPath(v, path, cs).Some?
  {
    var k := LastSlash(path);
    DetachedChild(Get(v, Resolve(v, path[..k], cs).value), DecodeInPlace(path[k + 1..]))
  }

  /** A move or a copy; a `from` that is no string has no text to copy from. */
  function Transfer(d: Document, op: Op, from: Option<Json>, path: string, cs: bool): Applied
    requires op == Copy || (op == Move && (from.None? || from.value.Str?))
  {
    if from.None? then Applied(4, d)
    else if !from.value.Str? then Applied(5, d)
    else
      var source := from.value.text;
      match d
      case InvalidItem => Applied(if op == Copy && source == "" then 9 else 5, d)
      case Tree(v) =>
        if op == Move then
          var rest := DetachPath(v, source, cs);
          if rest.None? then Applied(5, d) else AddAtPath(rest.value, path, DetachedAt(v, source, cs), cs)
        else
          var at := Resolve(v, source, cs);
          if at.None? then Applied(5, d) else AddAtPath(v, path, Get(v, at.value), cs)
  }

  /** A test compares in place: the item it looks at may come out with its members sorted. */
  function TestAt(d: Document, path: string, value: Option<Json>, cs: bool): Applied {
    match d
    case InvalidItem => Applied(1, d)
    case Tree(v) =>
      var at := Resolve(v, path, cs);
      if at.None? || value.None? then Applied(1, d)
      else
        var w := Effect(Get(v, at.value), value.value, cs);
        Applied(if w.same then 0 else 1, Tree(Put(v, at.value, w.left)))
  }

  // ----- the patch as JSON

  function Item(v: Json, name: string, cs: bool): Option<Json> {
    if v.Object? then
      var i := Find(v.members, name, cs);
      if i < |v.members| then Some(v.members[i].value) else None
    else None
  }

  /** `decode_patch_operation`. */
  function DecodeOp(patch: Json, cs: bool): Op {
    var op := Item(patch, "op", cs);
    if op.None? || !op.value.Str? then Malformed
    else if op.value.text == "add" then Add
    else if op.value.text == "remove" then Remove
    else if op.value.text == "replace" then Replace
    else if op.value.text == "move" then Move
    else if op.value.text == "copy" then Copy
    else if op.value.text == "test" then Test
    else Malformed
  }

  /** The text of `from` is read without a check when an item is moved. */
  predicate Readable(patch: Json, cs: bool) {
    DecodeOp(patch, cs) == Move ==> Item(patch, "from", cs).None? || Item(patch, "from", cs).value.Str?
  }

  /** `apply_patch`. */
  function ApplyPatch(d: Document, patch: Json, cs: bool): Applied
    requires Readable(patch, cs)
  {
    var path := Item(patch, "path", cs);
    if path.None? || !path.value.Str? then Applied(2, d)
    else
      var op := DecodeOp(patch, cs);
      if op == Malformed then Applied(3, d)
      else if op == Test then TestAt(d, path.value.text, Item(patch, "value", cs), cs)
      else if op == Move || op == Copy then Transfer(d, op, Item(patch, "from", cs), path.value.text, cs)
      else ApplyEdit(d, Edit(op, path.value.text, Item(patch, "value", cs)), cs)
  }

  /** A test may leave a child list that later additions get wrong, so nothing is applied after one. */
  predicate Applicable(patches: seq<Json>, cs: bool) {
    && (forall i :: 0 <= i < |patches| ==> Readable(patches[i], cs))
    && (forall i :: 0 <= i < |patches| - 1 ==> DecodeOp(patches[i], cs) != Test)
  }

  /** `cJSONUtils_ApplyPatches` on an array of patches: stop at the first status that is not 0. */
  function ApplyPatches(d: Document, patches: seq<Json>, cs: bool): Applied
    requires Applicable(patches, cs)
    decreases |patches|
  {
    if patches == [] then Applied(0, d)
    else
      var r := ApplyPatch(d, patches[0], cs);
      if r.status != 0 then r else ApplyPatches(r.doc, patches[1..], cs)
  }

  function OpName(op: Op): string {
    match op
    case Add => "add"
    case Remove => "remove"
    case Replace => "replace"
    case _ => ""
  }

  /** `compose_patch`. */
  function ComposePatch(e: Edit): Json {
    Object([Member("op", Str(OpName(e.op))), Member("path", Str(e.path))] +
           if e.value.Some? then [Member("value", e.value.value)] else [])
  }

  function ComposePatches(es: seq<Edit>): (r: seq<Json>)
    ensures |r| == |es|
    ensures forall i :: 0 <= i < |es| ==> r[i] == ComposePatch(es[i])
  {
    if es == [] then [] else [ComposePatch(es[0])] + ComposePatches(es[1..])
  }

  predicate Emitted(e: Edit) {
    e.op == Add || e.op == Remove || e.op == Replace
  }

  /** A composed patch is read back as the edit it was composed from. */
  lemma ComposedPatchReadsBack(e: Edit, cs: bool)
    requires Emitted(e)
    ensures DecodeOp(ComposePatch(e), cs) == e.op
    ensures Readable(ComposePatch(e), cs)
    ensures forall d :: ApplyPatch(d, ComposePatch(e), cs) == ApplyEdit(d, e, cs)
  {
    var ms := ComposePatch(e).members;
    assert |Fold("op")| == 2 && |Fold("path")| == 4 && |Fold("value")| == 5;
    assert |Key(ms[0].key, cs)| == 2 && |Key(ms[1].key, cs)| == 4;
    FindIs(ms, "op", cs, 0);
    FindIs(ms, "path", cs, 1);
    assert |Key("value", cs)| == 5;
    if e.value.Some? {
      FindIs(ms, "value", cs, 2);
    } else {
      assert |ms| == 2;
      assert Find(ms, "value", cs) == 2;
    }
  }

  function ApplyEdits(d: Document, es: seq<Edit>, cs: bool): Applied
    decreases |es|
  {
    if es == [] then Applied(0, d)
    else
      var r := ApplyEdit(d, es[0], cs);
      if r.status != 0 then r else ApplyEdits(r.doc, es[1..], cs)
  }

  lemma {:induction false} ApplyComposed(d: Document, es: seq<Edit>, cs: bool)
    requires forall i :: 0 <= i < |es| ==> Emitted(es[i])
    ensures Applicable(ComposePatches(es), cs)
    ensures ApplyPatches(d, ComposePatches(es), cs) == ApplyEdits(d, es, cs)
    decreases |es|
  {
    forall i | 0 <= i < |es| ensures DecodeOp(ComposePatches(es)[i], cs) == es[i].op {
      ComposedPatchReadsBack(es[i], cs);
    }
    if es != [] {
      ComposedPatchReadsBack(es[0], cs);
      var r := ApplyEdit(d, es[0], cs);
      ApplyComposed(r.doc, es[1..], cs);
      assert ComposePatches(es)[1..] == ComposePatches(es[1..]);
    }
  }

  // ----- create_patches

  /** A difference that is settled by replacing the whole node. */
  predicate Differ(f: Json, t: Json) {
    match (f, t)
    case (Null, Null) => false
    case (False, False) => false
    case (True, True) => false
    case (Number(m), Number(n)) => ValueInt(m) != ValueInt(n) || !CompareDouble(m as real, n as real)
    case (Str(a), Str(b)) => Compare(a, b) != 0
    case (Array(_), Array(_)) => false
    case (Object(_), Object(_)) => false
    case _ => true
  }

  function CreatePatches(path: string, f: Json, t: Json, cs: bool): seq<Edit>
    decreases Height(f), 1, 0
  {
    if Differ(f, t) then [Edit(Replace, path, Some(t))]
    else if f.Array? then ArrayPatches(path, 0, f.items, t.items, cs)
    else if f.Object? then
      SortedHeights(f.members, cs);
      ObjectPatches(path, SortMembers(f.members, cs), SortMembers(t.members, cs), cs)
    else []
  }

  /** The three loops over array elements; `fs` and `ts` are the elements from `index` on. */
  function ArrayPatches(path: string, index: nat, fs: seq<Json>, ts: seq<Json>, cs: bool): seq<Edit>
    decreases ItemsHeight(fs) + 1, 0, |fs| + |ts|
  {
    if fs != [] && ts != [] then
      TailHeight(fs);
      CreatePatches(path + "/" + Decimal(index), fs[0], ts[0], cs)
      + ArrayPatches(path, index + 1, fs[1..], ts[1..], cs)
    else if fs != [] then
      TailHeight(fs);
      [Edit(Remove, path + "/" + Encode(Decimal(index)), None)] + ArrayPatches(path, index, fs[1..], ts, cs)
    else if ts != [] then
      [Edit(Add, path + "/" + Encode("-"), Some(ts[0]))] + ArrayPatches(path, index + 1, fs, ts[1..], cs)
    else []
  }

  lemma TailHeight(fs: seq<Json>)
    requires fs != []
    ensures ItemsHeight(fs[1..]) <= ItemsHeight(fs)
  {
  }

  lemma TailMembersHeight(ms: seq<Member>)
    requires ms != []
    ensures MembersHeight(ms[1..]) <= MembersHeight(ms)
  {
  }

  /** The merge of the two sorted member lists. */
  function ObjectPatches(path: string, fs: seq<Member>, ts: seq<Member>, cs: bool): seq<Edit>
    decreases MembersHeight(fs) + 1, 0, |fs| + |ts|
  {
    if fs == [] && ts == [] then []
    else
      var diff := KeyDiff(fs, ts, cs);
      if diff == 0 then
        TailMembersHeight(fs);
        CreatePatches(path + "/" + Encode(fs[0].key), fs[0].value, ts[0].value, cs)
        + ObjectPatches(path, fs[1..], ts[1..], cs)
      else if diff < 0 then
        TailMembersHeight(fs);
        [Edit(Remove, path + "/" + Encode(fs[0].key), None)] + ObjectPatches(path, fs[1..], ts, cs)
      else
        [Edit(Add, path + "/" + Encode(ts[0].key), Some(ts[0].value))] + ObjectPatches(path, fs, ts[1..], cs)
  }

  /** Which list has the smaller key in front; a list that has ended counts as larger. */
  function KeyDiff(fs: seq<Member>, ts: seq<Member>, cs: bool): (r: int)
    requires fs != [] || ts != []
    ensures r == 0 ==> fs != [] && ts != []
    ensures r < 0 ==> fs != []
    ensures r > 0 ==> ts != []
  {
    if fs == [] then 1 else if ts == [] then -1 else Compare(Key(fs[0].key, cs), Key(ts[0].key, cs))
  }

  /** The difference orders the keys in front, and an exhausted list comes after every key. */
  lemma KeyDiffOrders(fs: seq<Member>, ts: seq<Member>, cs: bool)
    requires fs != [] || ts != []
    ensures KeyDiff(fs, ts, cs) < 0 <==> fs != [] && (ts == [] || Less(Key(fs[0].key, cs), Key(ts[0].key, cs)))
    ensures KeyDiff(fs, ts, cs) > 0 <==> ts != [] && (fs == [] || Less(Key(ts[0].key, cs), Key(fs[0].key, cs)))
    ensures KeyDiff(fs, ts, cs) == 0 <==> fs != [] && ts != [] && Key(fs[0].key, cs) == Key(ts[0].key, cs)
  {
    if fs != [] && ts != [] {
      Trichotomy(Key(fs[0].key, cs), Key(ts[0].key, cs));
      CompareZero(Key(fs[0].key, cs), Key(ts[0].key, cs));
      CompareSymmetric(Key(fs[0].key, cs), Key(ts[0].key, cs));
    }
  }

  /** `cJSONUtils_GeneratePatches` and its case-sensitive variant. */
  function GeneratePatches(from: Json, to: Json, cs: bool): seq<Json> {
    ComposePatches(CreatePatches("", from, to, cs))
  }
}
