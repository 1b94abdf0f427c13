/**
 When no patches are generated, and why the source tree of a patch must not have keys that differ only in
 case: `detach_path` ignores case in either mode.
 */
module PatchLaws {
  import opened CString
  import opened Sequences
  import opened Json
  import opened Sorting
  import opened Comparison
  import opened SortEffects
  import opened Pointer
  import opened PointerDecode
  import opened Patch
  import opened PatchRoundTrip

  /** No patches are generated exactly for trees that `compare_json` calls equal. */
  lemma {:induction false} NoPatchesIffSortedEqual(path: string, f: Json, t: Json, cs: bool)
    ensures CreatePatches(path, f, t, cs) == [] <==> SortedEqual(f, t, cs)
    decreases Height(f), 1, 0
  {
    if !Differ(f, t) {
      if f.Array? {
        NoArrayPatches(path, 0, f.items, t.items, cs);
      } else if f.Object? {
        SortedHeights(f.members, cs);
        NoObjectPatches(path, SortMembers(f.members, cs), SortMembers(t.members, cs), cs);
      }
    }
  }

  lemma {:induction false} NoArrayPatches(path: string, index: nat, fs: seq<Json>, ts: seq<Json>, cs: bool)
    ensures ArrayPatches(path, index, fs, ts, cs) == [] <==> ItemsSortedEqual(fs, ts, cs)
    decreases ItemsHeight(fs) + 1, 0, |fs| + |ts|
  {
    if fs != [] && ts != [] {
      TailHeight(fs);
      NoPatchesIffSortedEqual(path + "/" + Decimal(index), fs[0], ts[0], cs);
      NoArrayPatches(path, index + 1, fs[1..], ts[1..], cs);
      ItemsCons(fs, ts, cs);
    }
  }

  lemma {:induction false} NoObjectPatches(path: string, fs: seq<Member>, ts: seq<Member>, cs: bool)
    ensures ObjectPatches(path, fs, ts, cs) == [] <==> MembersSortedEqual(fs, ts, cs)
    decreases MembersHeight(fs) + 1, 0, |fs| + |ts|
  {
    if fs != [] && ts != [] && Compare(Key(fs[0].key, cs), Key(ts[0].key, cs)) == 0 {
      TailMembersHeight(fs);
      NoPatchesIffSortedEqual(path + "/" + Encode(fs[0].key), fs[0].value, ts[0].value, cs);
      NoObjectPatches(path, fs[1..], ts[1..], cs);
      MembersCons(fs, ts, cs);
    }
  }

  /** With distinct keys: exactly for trees that are equal up to member order. */
  lemma NoPatchesIffEqual(f: Json, t: Json, cs: bool)
    requires Distinct(f, cs) && Distinct(t, cs)
    ensures GeneratePatches(f, t, cs) == [] <==> Meaning(f, cs) == Meaning(t, cs)
  {
    NoPatchesIffSortedEqual("", f, t, cs);
    SortedEqualIsMeaning(f, t, cs);
  }

  lemma {:induction false} SameAfterShift<T>(s: seq<T>, i: nat, j: nat)
    requires i <= j < |s| && RemoveAt(s, i) == RemoveAt(s, j)
    ensures s[i] == s[j]
    decreases j - i
  {
    if i < j {
      forall k | i <= k < j ensures s[k] == s[k + 1] {
        assert RemoveAt(s, i)[k] == s[k + 1] && RemoveAt(s, j)[k] == s[k];
      }
      Constant(s, i, j);
    }
  }

  lemma {:induction false} Constant<T>(s: seq<T>, i: nat, j: nat)
    requires i <= j < |s| && forall k :: i <= k < j ==> s[k] == s[k + 1]
    ensures s[i] == s[j]
    decreases j - i
  {
    if i < j {
      Constant(s, i, j - 1);
      assert s[j - 1] == s[j - 1 + 1];
    }
  }

  /** What a removal that looks at the case does: the member with the key goes, or there is none to remove. */
  function DetachExact(ms: seq<Member>, key: string): Option<Json> {
    var i := Find(ms, key, true);
    if i < |ms| then Some(Object(RemoveAt(ms, i))) else None
  }

  /**
   A case-sensitive remove takes away the first member whose key is equal ignoring case. That is what was
   asked for if and only if no member in front of the one with the key, or no member at all if there is none,
   has a key that is equal ignoring case.
   */
  lemma DetachIgnoresCase(ms: seq<Member>, key: string)
    ensures DetachChild(Object(ms), key) == DetachExact(ms, key)
            <==> forall i :: 0 <= i < Find(ms, key, true) ==> Fold(ms[i].key) != Fold(key)
  {
    var exact, first := Find(ms, key, true), Find(ms, key, false);
    assert exact < |ms| ==> Fold(ms[exact].key) == Fold(key);
    assert first <= exact;
    assert first < |ms| ==> DetachChild(Object(ms), key) == Some(Object(RemoveAt(ms, first)));
    if exact < |ms| && RemoveAt(ms, first) == RemoveAt(ms, exact) {
      SameAfterShift(ms, first, exact);
      assert first == exact;
    }
    assert first < exact ==> Fold(ms[first].key) == Fold(key);
  }

  /** Removing a key that is not there takes away one that differs in case. */
  lemma AbsentKeyRemovesVariant()
    ensures Find([Member("A", Null)], "a", true) == 1
    ensures DetachChild(Object([Member("A", Null)]), "a") == Some(Object([]))
  {
    var ms := [Member("A", Null)];
    FindIs(ms, "a", false, 0);
    assert RemoveAt(ms, 0) == [];
  }

  /** The patch that should remove `a` removes `A`, and the result is not the tree asked for. */
  lemma RoundTripNeedsFoldedKeys()
    ensures var from, to := Object([Member("A", Null), Member("a", True)]), Object([Member("A", Null)]);
      && Distinct(from, true) && Distinct(to, true)
      && CreatePatches("", from, to, true) == [Edit(Remove, "/a", None)]
      && ApplyEdit(Tree(from), Edit(Remove, "/a", None), true) == Applied(0, Tree(Object([Member("a", True)])))
  {
    var fs, ts := [Member("A", Null), Member("a", True)], [Member("A", Null)];
    assert Compare("A", "a") < 0 && Compare("A", "A") == 0;
    assert Ascending(fs, MemberKey(true));
    assert SortMembers(fs, true) == fs && SortMembers(ts, true) == ts;
    RemoveIsGenerated(fs, ts);
    WrongMemberRemoved(fs);
  }

  lemma RemoveIsGenerated(fs: seq<Member>, ts: seq<Member>)
    requires fs == [Member("A", Null), Member("a", True)] && ts == [Member("A", Null)]
    ensures ObjectPatches("", fs, ts, true) == [Edit(Remove, "/a", None)]
  {
    assert Compare("A", "A") == 0;
    assert fs[1..] == [Member("a", True)] && ts[1..] == [];
    assert fs[1..][1..] == [];
    EncodePlainKey();
    assert ObjectPatches("", fs[1..], [], true) == [Edit(Remove, "/a", None)];
    assert CreatePatches("" + "/" + Encode("A"), Null, Null, true) == [];
  }

  lemma WrongMemberRemoved(ms: seq<Member>)
    requires ms == [Member("A", Null), Member("a", True)]
    ensures ApplyEdit(Tree(Object(ms)), Edit(Remove, "/a", None), true) == Applied(0, Tree(Object([Member("a", True)])))
  {
    FindIs(ms, "a", false, 0);
    assert RemoveAt(ms, 0) == [Member("a", True)];
    EncodePlainKey();
    DetachDirect(Object(ms), "a", true);
    assert "/" + "a" == "/a";
  }

  lemma EncodePlainKey()
    ensures Encode("a") == "a" && DecodeInPlace("a") == "a"
    ensures "" + "/" + Encode("a") == "/a"
  {
    PlainDecodesBack("a");
    assert "a"[1..] == "";
  }
}
