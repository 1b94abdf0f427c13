/**
 `apply_patch` and `cJSONUtils_ApplyPatches` as they edit a document, and generating patches followed by
 applying them.
 */
module PatchApply {
  import opened CString
  import opened Json
  import opened Pointer
  import opened PointerDecode
  import opened Patch
  import opened PatchRoundTrip
  import opened PatchLoops

  // ----- applying patches to a document in place

  class Target {
    var doc: Document

    constructor (v: Json)
      ensures doc == Tree(v)
    {
      doc := Tree(v);
    }

    /** `apply_patch`. */
    method ApplyOne(patch: Json, cs: bool) returns (status: nat)
      requires Readable(patch, cs)
      modifies this
      ensures Applied(status, doc) == ApplyPatch(old(doc), patch, cs)
    {
      var path := Item(patch, "path", cs);
      if path.None? || !path.value.Str? {
        return 2;
      }
      var op := DecodeOp(patch, cs);
      if op == Malformed {
        return 3;
      }
      var at, value := path.value.text, Item(patch, "value", cs);
      if op == Test {
        status := CompareAt(at, value, cs);
        return;
      }
      if op == Move || op == Copy {
        status := TransferTo(op, Item(patch, "from", cs), at, cs);
        return;
      }
      if at == "" {
        status := WriteRoot(op, value);
        return;
      }
      if op == Remove || op == Replace {
        var found := DetachFrom(at, cs);
        if !found {
          return 13;
        }
        if op == Remove {
          return 0;
        }
      }
      if value.None? {
        return 7;
      }
      status := AddTo(at, value.value, cs);
    }

    /** A test: the item is compared, and sorted, where it is. */
    method CompareAt(path: string, value: Option<Json>, cs: bool) returns (status: nat)
      modifies this
      ensures Applied(status, doc) == TestAt(old(doc), path, value, cs)
    {
      if doc == InvalidItem {
        return 1;
      }
      var at := Resolve(doc.v, path, cs);
      if at.None? || value.None? {
        return 1;
      }
      var w := CompareJson(Get(doc.v, at.value), value.value, cs);
      doc := Tree(Put(doc.v, at.value, w.left));
      status := if w.same then 0 else 1;
    }

    /** A move or a copy: the value comes from the document, and a moved value is lost if it cannot be added. */
    method TransferTo(op: Op, from: Option<Json>, path: string, cs: bool) returns (status: nat)
      requires op == Copy || (op == Move && (from.None? || from.value.Str?))
      modifies this
      ensures Applied(status, doc) == Transfer(old(doc), op, from, path, cs)
    {
      if from.None? {
        return 4;
      }
      if !from.value.Str? || (doc == InvalidItem && !(op == Copy && from.value.text == "")) {
        return 5;
      }
      if doc == InvalidItem {
        return 9;
      }
      var value;
      if op == Move {
        var rest := DetachPath(doc.v, from.value.text, cs);
        if rest.None? {
          return 5;
        }
        value := DetachedAt(doc.v, from.value.text, cs);
        doc := Tree(rest.value);
      } else {
        var at := Resolve(doc.v, from.value.text, cs);
        if at.None? {
          return 5;
        }
        value := Get(doc.v, at.value);
      }
      status := AddTo(path, value, cs);
    }

    /** The special case for the root. */
    method WriteRoot(op: Op, value: Option<Json>) returns (status: nat)
      requires op == Add || op == Remove || op == Replace
      modifies this
      ensures status == 0 <==> op == Remove || value.Some?
      ensures doc == if op == Remove then InvalidItem else if value.Some? then Tree(value.value) else old(doc)
      ensures status != 0 ==> status == 7
    {
      if op == Remove {
        doc := InvalidItem;
        return 0;
      }
      if value.None? {
        return 7;
      }
      doc := Tree(value.value);
      status := 0;
    }

    /** `detach_path`, and the deletion of what it returns. */
    method DetachFrom(path: string, cs: bool) returns (found: bool)
      modifies this
      ensures var rest := if old(doc).Tree? then DetachPath(old(doc).v, path, cs) else None;
              found == rest.Some? && doc == if found then Tree(rest.value) else old(doc)
    {
      if doc == InvalidItem {
        return false;
      }
      var k := LastSlash(path);
      var at := Resolve(doc.v, path[..k], cs);
      if k == |path| || at.None? {
        return false;
      }
      var parent := DetachChild(Get(doc.v, at.value), DecodeInPlace(path[k + 1..]));
      if parent.None? {
        return false;
      }
      doc := Tree(Put(doc.v, at.value, parent.value));
      found := true;
    }

    /** The last part of `apply_patch`. */
    method AddTo(path: string, value: Json, cs: bool) returns (status: nat)
      modifies this
      ensures Applied(status, doc) ==
        if old(doc).Tree? then AddAtPath(old(doc).v, path, value, cs) else Applied(9, InvalidItem)
    {
      if doc == InvalidItem {
        return 9;
      }
      var k := LastSlash(path);
      var at := Resolve(doc.v, path[..k], cs);
      if k == |path| || at.None? {
        return 9;
      }
      var added := AddChild(Get(doc.v, at.value), DecodeInPlace(path[k + 1..]), value, cs);
      status := added.0;
      doc := Tree(Put(doc.v, at.value, added.1));
    }

    /** `cJSONUtils_ApplyPatches` and its case-sensitive variant. */
    method Apply(patches: seq<Json>, cs: bool) returns (status: nat)
      requires Applicable(patches, cs)
      modifies this
      ensures Applied(status, doc) == ApplyPatches(old(doc), patches, cs)
    {
      var i := 0;
      assert patches[0..] == patches;
      while i < |patches|
        invariant 0 <= i <= |patches|
        invariant ApplyPatches(doc, patches[i..], cs) == ApplyPatches(old(doc), patches, cs)
      {
        assert patches[i..][1..] == patches[i + 1..];
        status := ApplyOne(patches[i], cs);
        if status != 0 { return; }
        i := i + 1;
      }
      status := 0;
    }
  }

  /** Generating patches and applying them to a copy turns it into `to`, up to member order. */
  method DiffAndPatch(from: Json, to: Json, cs: bool) returns (status: nat, copy: Target)
    requires GoodFrom(from) && GoodTo(to, cs)
    ensures status == 0 && copy.doc.Tree? && Meaning(copy.doc.v, cs) == Meaning(to, cs)
  {
    var generated := new PatchArray();
    var _, _ := generated.Create("", from, to, cs);
    ghost var patches := RoundTripOf(from, to, cs);
    assert generated.patches == patches;
    copy := new Target(from);
    status := copy.Apply(generated.patches, cs);
  }

  lemma RoundTripOf(from: Json, to: Json, cs: bool) returns (patches: seq<Json>)
    requires GoodFrom(from) && GoodTo(to, cs)
    ensures patches == ComposePatches(CreatePatches("", from, to, cs))
    ensures Applicable(patches, cs)
    ensures Yields(ApplyPatches(Tree(from), patches, cs), to, cs)
  {
    patches := GeneratePatches(from, to, cs);
    PatchesRoundTrip(from, to, cs);
  }
}
