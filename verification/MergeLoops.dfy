/**
 The loops of `merge_patch` and `generate_merge_patch`, and the two run one after the other.
 */
module MergeLoops {
  import opened CString
  import opened Sequences
  import opened Json
  import opened Sorting
  import opened Comparison
  import opened Patch
  import opened PatchLoops
  import opened MergePatch
  import opened MergeGenerate

  /** An object whose members are detached and added one at a time. */
  class Members {
    var list: seq<Member>

    constructor (list: seq<Member>)
      ensures this.list == list
    {
      this.list := list;
    }

    /** `cJSON_DetachItemFromObject` and its case-sensitive variant. */
    method Detach(key: string, cs: bool) returns (item: Option<Json>)
      modifies this
      ensures list == Without(old(list), key, cs)
      ensures var i := Find(old(list), key, cs); item == if i < |old(list)| then Some(old(list)[i].value) else None
    {
      var i := Find(list, key, cs);
      item := None;
      if i < |list| {
        item := Some(list[i].value);
        list := RemoveAt(list, i);
      }
    }

    /** `cJSON_AddItemToObject`. */
    method Add(key: string, item: Json)
      modifies this
      ensures list == old(list) + [Member(key, item)]
    {
      list := list + [Member(key, item)];
    }

    /** The loop of `merge_patch` over the members of the patch. */
    method MergeAll(ps: seq<Member>, cs: bool)
      modifies this
      ensures list == MergeMembers(old(list), ps, cs)
      decreases ps, 0
    {
      var i := 0;
      assert ps[0..] == ps;
      while i < |ps|
        invariant 0 <= i <= |ps|
        invariant MergeMembers(list, ps[i..], cs) == MergeMembers(old(list), ps, cs)
      {
        assert ps[i..][1..] == ps[i + 1..];
        assert ps[i] in ps;
        var prior := Detach(ps[i].key, cs);
        if !ps[i].value.Null? {
          var replacement := RunMerge(prior, ps[i].value, cs);
          Add(ps[i].key, replacement);
        }
        i := i + 1;
      }
    }
  }

  /** `merge_patch`. */
  method RunMerge(target: Option<Json>, patch: Json, cs: bool) returns (r: Json)
    ensures r == Merge(target, patch, cs)
    decreases patch, 1
  {
    if !patch.Object? {
      return patch;
    }
    var base := new Members(if target.Some? && target.value.Object? then target.value.members else []);
    base.MergeAll(patch.members, cs);
    r := Object(base.list);
  }

  /** `generate_merge_patch`. */
  method RunGenerate(from: Json, to: Json, cs: bool) returns (r: Option<Json>)
    ensures r == Generate(from, to, cs)
    decreases Height(from), 1
  {
    if !to.Object? || !from.Object? {
      return Some(to);
    }
    SortedHeights(from.members, cs);
    var patch := GenerateAll(SortMembers(from.members, cs), SortMembers(to.members, cs), cs);
    r := if patch == [] then None else Some(Object(patch));
  }

  /** The merge loop over the sorted members. */
  method GenerateAll(fs: seq<Member>, ts: seq<Member>, cs: bool) returns (patch: seq<Member>)
    ensures patch == GenerateMembers(fs, ts, cs)
    decreases MembersHeight(fs) + 1, 0
  {
    patch := [];
    var f, t := 0, 0;
    assert fs[0..] == fs && ts[0..] == ts;
    while f < |fs| || t < |ts|
      invariant 0 <= f <= |fs| && 0 <= t <= |ts|
      invariant patch + GenerateMembers(fs[f..], ts[t..], cs) == GenerateMembers(fs, ts, cs)
      decreases |fs| - f + |ts| - t
    {
      ghost var before := patch;
      GenerateStep(fs, f, ts, t, cs, patch);
      var diff := if f == |fs| then 1 else if t == |ts| then -1 else Compare(fs[f].key, ts[t].key);
      if diff < 0 {
        patch := patch + [Member(fs[f].key, Null)];
        f := f + 1;
      } else if diff > 0 {
        patch := patch + [ts[t]];
        t := t + 1;
      } else {
        var one := GenerateOne(fs[f], ts[t], cs);
        patch := patch + one;
        f, t := f + 1, t + 1;
      }
    }
    assert patch + [] == patch;
  }

  method GenerateOne(f: Member, t: Member, cs: bool) returns (r: seq<Member>)
    ensures r == GenerateMember(f, t, cs)
    decreases Height(f.value), 2
  {
    var w := CompareJson(f.value, t.value, cs);
    if w.same {
      return [];
    }
    var p := RunGenerate(f.value, t.value, false);
    r := if p.Some? then [Member(t.key, p.value)] else [];
  }

  lemma GenerateStep(fs: seq<Member>, f: nat, ts: seq<Member>, t: nat, cs: bool, done: seq<Member>)
    requires f <= |fs| && t <= |ts| && (f < |fs| || t < |ts|)
    ensures var diff := KeyDiff(fs[f..], ts[t..], true);
      done + GenerateMembers(fs[f..], ts[t..], cs) ==
        if diff < 0 then done + [Member(fs[f].key, Null)] + GenerateMembers(fs[f + 1..], ts[t..], cs)
        else if diff > 0 then done + [ts[t]] + GenerateMembers(fs[f..], ts[t + 1..], cs)
        else done + GenerateMember(fs[f], ts[t], cs) + GenerateMembers(fs[f + 1..], ts[t + 1..], cs)
  {
    assert f < |fs| ==> fs[f..][1..] == fs[f + 1..];
    assert t < |ts| ==> ts[t..][1..] == ts[t + 1..];
  }

  /** Generating a merge patch and merging it into a copy of `from`. */
  method DiffAndMerge(from: Json, to: Json, cs: bool) returns (r: Json)
    requires Distinct(from, cs) && Distinct(to, cs) && Ordered(from, to, cs)
    ensures Meaning(r, cs) == Meaning(to, cs) <==>
            Generate(from, to, cs).None? || NullsKept(Meaning(from, cs), Meaning(to, cs))
  {
    var patch := RunGenerate(from, to, cs);
    if patch.None? {
      NoPatchIffEqual(from, to, cs, cs);
      r := from;
    } else {
      r := RunMerge(Some(from), patch.value, cs);
      MergePatchRoundTrip(from, to, cs, cs);
    }
  }

  // ----- mixed case

  /**
   Members sorted by folded keys are merged by plain keys. With a small letter that sorts before a capital one the
   patch sets a member and then removes it: it is lost.
   */
  lemma MixedCaseLosesMember()
    ensures var from, to := Object([Member("a", Null), Member("B", True)]), Object([Member("B", True)]);
      && Distinct(from, false) && Distinct(to, false)
      && Generate(from, to, false) == Some(Object([Member("B", True), Member("a", Null), Member("B", Null)]))
      && Merge(Some(from), Generate(from, to, false).value, false) == Object([])
  {
    var fs, ts := [Member("a", Null), Member("B", True)], [Member("B", True)];
    var ps := [Member("B", True), Member("a", Null), Member("B", Null)];
    MixedSorted(fs, ts);
    MixedPatch(fs, ts);
    GenerateFrom(fs, ts, ps);
    MixedMerge(fs);
    MergeFrom(fs, ps, []);
  }

  lemma MixedSorted(fs: seq<Member>, ts: seq<Member>)
    requires fs == [Member("a", Null), Member("B", True)] && ts == [Member("B", True)]
    ensures Distinct(Object(fs), false) && Distinct(Object(ts), false)
    ensures SortMembers(fs, false) == fs && SortMembers(ts, false) == ts
  {
    FoldedKeys();
    assert Ascending(fs, MemberKey(false));
  }

  lemma GenerateFrom(fs: seq<Member>, ts: seq<Member>, ps: seq<Member>)
    requires SortMembers(fs, false) == fs && SortMembers(ts, false) == ts
    requires GenerateMembers(fs, ts, false) == ps != []
    ensures Generate(Object(fs), Object(ts), false) == Some(Object(ps))
  {
  }

  lemma MergeFrom(ms: seq<Member>, ps: seq<Member>, r: seq<Member>)
    requires MergeMembers(ms, ps, false) == r
    ensures Merge(Some(Object(ms)), Object(ps), false) == Object(r)
  {
  }

  lemma FoldedKeys()
    ensures Fold("a") == "a" && Fold("B") == "b"
    ensures Compare("a", "b") < 0 && Compare("a", "B") > 0
  {
    assert Fold("a") == [ToLower('a')] + Fold("a"[1..]);
    assert Fold("B") == [ToLower('B')] + Fold("B"[1..]);
    assert "a"[1..] == "" && "B"[1..] == "";
  }

  lemma MixedPatch(fs: seq<Member>, ts: seq<Member>)
    requires fs == [Member("a", Null), Member("B", True)] && ts == [Member("B", True)]
    ensures GenerateMembers(fs, ts, false) == [Member("B", True), Member("a", Null), Member("B", Null)]
  {
    FoldedKeys();
    assert ts[1..] == [] && fs[1..] == [Member("B", True)] && fs[1..][1..] == [];
    assert GenerateMembers(fs[1..], [], false) == [Member("B", Null)];
    assert GenerateMembers(fs, [], false) == [Member("a", Null), Member("B", Null)];
  }

  lemma MixedMerge(ms: seq<Member>)
    requires ms == [Member("a", Null), Member("B", True)]
    ensures MergeMembers(ms, [Member("B", True), Member("a", Null), Member("B", Null)], false) == []
  {
    FoldedKeys();
    var ps := [Member("B", True), Member("a", Null), Member("B", Null)];
    var one, b := [Member("a", Null)], [Member("B", True)];
    assert ps[1..] == [Member("a", Null), Member("B", Null)] && ps[1..][1..] == [Member("B", Null)] && ps[1..][1..][1..] == [];
    FindIs(ms, "B", false, 1);
    assert Without(ms, "B", false) == one;
    assert one + b == ms;
    FindIs(ms, "a", false, 0);
    assert Without(ms, "a", false) == b;
    FindIs(b, "B", false, 0);
    assert Without(b, "B", false) == [];
    assert MergeMembers(b, ps[1..][1..], false) == [];
    assert MergeMembers(ms, ps[1..], false) == [];
  }
}
