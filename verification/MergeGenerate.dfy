/**
 `generate_merge_patch`: the patch it builds, what that patch does when merged back, and when that is
 the target. Members are sorted in the mode of the call, below the root always ignoring case, but they are
 merged by `strcmp`; the theorems are about trees whose keys both put in the same order.
 */
module MergeGenerate {
  import opened CString
  import opened Json
  import opened Sorting
  import opened Comparison
  import opened Patch
  import opened PatchRoundTrip
  import opened MergePatch

  // ----- on meanings

  /** The difference of two meanings as a merge patch. */
  function Diff(f: Value, t: Value): Value
    decreases f, 1
  {
    if f.VObj? && t.VObj? then VObj(DiffMembers(f.m, t.m)) else t
  }

  predicate Changed(f: map<string, Value>, t: map<string, Value>, k: string) {
    (k in f || k in t) && !(k in f && k in t && f[k] == t[k])
  }

  function DiffMembers(f: map<string, Value>, t: map<string, Value>): (r: map<string, Value>)
    ensures forall k :: k in r <==> Changed(f, t, k)
    ensures forall k :: k in r ==>
              r[k] == if k !in t then VNull else if k !in f then t[k] else Diff(f[k], t[k])
    decreases VObj(f), 0
  {
    map k | k in f.Keys + t.Keys && Changed(f, t, k) ::
      if k !in t then VNull else if k !in f then t[k] else Diff(f[k], t[k])
  }

  /** Every null member of `t`, at any depth reached through objects, is already null in `f`. */
  predicate NullsKept(f: Value, t: Value)
    decreases t
  {
    t.VObj? ==>
      forall k :: k in t.m ==>
        if t.m[k].VNull? then k in Base(f) && Base(f)[k].VNull? else NullsKept(Old(Base(f), k), t.m[k])
  }

  lemma {:induction false} NullsKeptSelf(v: Value)
    ensures NullsKept(v, v)
  {
    if v.VObj? {
      forall k | k in v.m ensures !v.m[k].VNull? ==> NullsKept(Old(v.m, k), v.m[k]) {
        NullsKeptSelf(v.m[k]);
      }
    }
  }

  /** Merging a whole tree over something that is not an object drops its nulls. */
  lemma {:induction false} MergeWhole(f: Value, t: Value)
    requires !f.VObj? || !t.VObj?
    ensures Rfc(f, t) == t <==> NullsKept(f, t)
    decreases t
  {
    if t.VObj? {
      var r := RfcMembers(Base(f), t.m);
      forall k | k in t.m ensures Rfc(VNull, t.m[k]) == t.m[k] <==> NullsKept(VNull, t.m[k]) {
        MergeWhole(VNull, t.m[k]);
      }
      if NullsKept(f, t) {
        assert r == t.m;
      }
      if r == t.m {
        forall k | k in t.m ensures !t.m[k].VNull? && NullsKept(Old(Base(f), k), t.m[k]) {
          assert k in r && r[k] == Rfc(Old(Base(f), k), t.m[k]);
        }
      }
    }
  }

  /** One key of the merged result. */
  lemma {:induction false} MergedKey(f: map<string, Value>, t: map<string, Value>, k: string)
    requires Changed(f, t, k) && k in t
    ensures var r := RfcMembers(f, DiffMembers(f, t));
            (k in r && r[k] == t[k]) <==>
            (!t[k].VNull? && NullsKept(Old(f, k), t[k]))
    decreases VObj(t), 0
  {
    var d := DiffMembers(f, t);
    var r := RfcMembers(f, d);
    if k in f {
      DiffNull(f[k], t[k]);
      MergeDiff(f[k], t[k]);
    } else {
      MergeWhole(VNull, t[k]);
    }
  }

  lemma DiffNull(f: Value, t: Value)
    ensures Diff(f, t).VNull? <==> t.VNull?
  {
  }

  /** Merging the difference gives the target exactly when its nulls were already there. */
  lemma {:induction false} MergeDiff(f: Value, t: Value)
    ensures Rfc(f, Diff(f, t)) == t <==> NullsKept(f, t)
    decreases t, 1
  {
    if f.VObj? && t.VObj? {
      var d := DiffMembers(f.m, t.m);
      var r := RfcMembers(f.m, d);
      forall k | Changed(f.m, t.m, k) && k in t.m
        ensures (k in r && r[k] == t.m[k]) <==> (!t.m[k].VNull? && NullsKept(Old(f.m, k), t.m[k]))
      {
        MergedKey(f.m, t.m, k);
      }
      forall k | k in t.m && !Changed(f.m, t.m, k)
        ensures k in r && r[k] == t.m[k] && NullsKept(Old(f.m, k), t.m[k])
      {
        NullsKeptSelf(t.m[k]);
      }
      assert forall k :: k in r ==> k in t.m;
      if NullsKept(f, t) {
        forall k | k in t.m ensures k in r && r[k] == t.m[k] {
          if Changed(f.m, t.m, k) {
            assert !t.m[k].VNull?;
          }
        }
        assert r == t.m;
      }
      if r == t.m {
        forall k | k in t.m
          ensures if t.m[k].VNull? then k in f.m && f.m[k].VNull? else NullsKept(Old(f.m, k), t.m[k])
        {
          assert k in r && r[k] == t.m[k];
        }
      }
    } else {
      MergeWhole(f, t);
    }
  }

  // ----- generate_merge_patch

  /** What the generator returns; `None` is the NULL for "no patch". */
  function Generate(f: Json, t: Json, cs: bool): Option<Json>
    decreases Height(f), 1, 0
  {
    if !t.Object? || !f.Object? then Some(t)
    else
      SortedHeights(f.members, cs);
      var ps := GenerateMembers(SortMembers(f.members, cs), SortMembers(t.members, cs), cs);
      if ps == [] then None else Some(Object(ps))
  }

  /** The merge loop, which compares keys with plain `strcmp` in either mode. */
  function GenerateMembers(fs: seq<Member>, ts: seq<Member>, cs: bool): seq<Member>
    decreases MembersHeight(fs) + 1, 0, |fs| + |ts|
  {
    if fs == [] && ts == [] then []
    else
      var diff := KeyDiff(fs, ts, true);
      if diff < 0 then
        TailMembersHeight(fs);
        [Member(fs[0].key, Null)] + GenerateMembers(fs[1..], ts, cs)
      else if diff > 0 then
        [ts[0]] + GenerateMembers(fs, ts[1..], cs)
      else
        TailMembersHeight(fs);
        GenerateMember(fs[0], ts[0], cs) + GenerateMembers(fs[1..], ts[1..], cs)
  }

  /** A key in both objects; the nested call ignores case. */
  function GenerateMember(f: Member, t: Member, cs: bool): seq<Member>
    decreases Height(f.value), 2, 0
  {
    if SortedEqual(f.value, t.value, cs) then []
    else
      var p := Generate(f.value, t.value, false);
      if p.Some? then [Member(t.key, p.value)] else []
  }

  // ----- keys in the same order

  /** `strcmp` and the comparison that ignores case order the two keys alike. */
  ghost predicate Agree(x: Member, y: Member) {
    Less(x.key, y.key) <==> Less(Fold(x.key), Fold(y.key))
  }

  ghost predicate SameOrder(ms: seq<Member>, ns: seq<Member>) {
    forall x, y :: x in ms + ns && y in ms + ns ==> Agree(x, y)
  }

  /** At every level the keys of the two objects together are in the same order with and without case. */
  ghost predicate Aligned(f: Json, t: Json)
    decreases f
  {
    match (f, t)
    case (Array(xs), Array(ys)) => forall i :: 0 <= i < |xs| && i < |ys| ==> Aligned(xs[i], ys[i])
    case (Object(ms), Object(ns)) =>
      && SameOrder(ms, ns)
      && forall x, y :: x in ms && y in ns && x.key == y.key ==> Aligned(x.value, y.value)
    case _ => true
  }

  /** There is nothing to merge in the values. */
  ghost predicate Settled(f: Json, t: Json) {
    !f.Object? || !t.Object? || Meaning(f, true) == Meaning(t, true)
  }

  ghost predicate Paired(fs: seq<Member>, ts: seq<Member>, exact: bool) {
    forall x, y :: x in fs && y in ts && x.key == y.key ==>
      (exact && Settled(x.value, y.value)) || Aligned(x.value, y.value)
  }

  /** What the generator needs. In the case-sensitive mode the root itself is free. */
  ghost predicate Ordered(f: Json, t: Json, exact: bool) {
    if exact then f.Object? && t.Object? ==> Paired(f.members, t.members, true) else Aligned(f, t)
  }

  /** Sorting looks at no more than the order of the keys. */
  lemma {:induction false} MergeAgrees(a: seq<Member>, b: seq<Member>)
    requires SameOrder(a, b)
    ensures MergeLists(a, b, MemberKey(false)) == MergeLists(a, b, MemberKey(true))
  {
    if a != [] && b != [] {
      assert a[0] in a + b && b[0] in a + b;
      assert Agree(a[0], b[0]);
      assert forall x :: x in a[1..] ==> x in a;
      assert forall x :: x in b[1..] ==> x in b;
      MergeAgrees(a[1..], b);
      MergeAgrees(a, b[1..]);
    }
  }

  lemma AscendingAgrees(s: seq<Member>)
    requires SameOrder(s, s)
    ensures Ascending(s, MemberKey(false)) == Ascending(s, MemberKey(true))
  {
    forall i | 0 <= i < |s| - 1 ensures Agree(s[i], s[i + 1]) {
      assert s[i] in s + s && s[i + 1] in s + s;
    }
  }

  lemma HalfSame(s: seq<Member>, i: nat, j: nat)
    requires SameOrder(s, s) && i <= j <= |s|
    ensures SameOrder(s[i..j], s[i..j])
    ensures forall x :: x in Sort(s[i..j], MemberKey(true)) ==> x in s
  {
    assert forall x :: x in s[i..j] ==> x in s;
    SortPermutes(s[i..j], MemberKey(true));
    SameMembers(Sort(s[i..j], MemberKey(true)), s[i..j]);
  }

  lemma PartsSame(s: seq<Member>, a: seq<Member>, b: seq<Member>)
    requires SameOrder(s, s) && (forall x :: x in a ==> x in s) && forall x :: x in b ==> x in s
    ensures SameOrder(a, b)
  {
    forall x, y | x in a + b && y in a + b ensures Agree(x, y) {
      assert x in s + s && y in s + s;
    }
  }

  lemma {:induction false} SortAgrees(s: seq<Member>)
    requires SameOrder(s, s)
    ensures Sort(s, MemberKey(false)) == Sort(s, MemberKey(true))
    decreases |s|
  {
    AscendingAgrees(s);
    if |s| > 1 {
      var m := Middle(|s|);
      assert s[..m] == s[0..m] && s[m..] == s[m..|s|];
      HalfSame(s, 0, m);
      HalfSame(s, m, |s|);
      SortAgrees(s[..m]);
      SortAgrees(s[m..]);
      var a, b := Sort(s[..m], MemberKey(true)), Sort(s[m..], MemberKey(true));
      PartsSame(s, a, b);
      MergeAgrees(a, b);
    }
  }

  lemma SortMembersAgree(ms: seq<Member>)
    requires SameOrder(ms, ms)
    ensures SortMembers(ms, false) == SortMembers(ms, true)
    ensures forall m :: m in SortMembers(ms, true) <==> m in ms
  {
    SortAgrees(ms);
    SortPermutes(ms, MemberKey(true));
    SameMembers(SortMembers(ms, true), ms);
  }

  lemma EqualKeysAgree(x: Member, y: Member)
    requires Agree(x, y) && Agree(y, x)
    ensures Fold(x.key) == Fold(y.key) <==> x.key == y.key
  {
    Trichotomy(x.key, y.key);
    Trichotomy(Fold(x.key), Fold(y.key));
  }

  /** On aligned trees the case makes no difference to the comparison. */
  lemma {:induction false} AlignedEqual(a: Json, b: Json)
    requires Aligned(a, b)
    ensures SortedEqual(a, b, false) == SortedEqual(a, b, true)
    decreases a
  {
    match (a, b)
    case (Array(xs), Array(ys)) =>
      forall i | 0 <= i < |xs| && i < |ys| ensures SortedEqual(xs[i], ys[i], false) == SortedEqual(xs[i], ys[i], true) {
        AlignedEqual(xs[i], ys[i]);
      }
    case (Object(ms), Object(ns)) =>
      SortMembersAgree(ms);
      SortMembersAgree(ns);
      var x, y := SortMembers(ms, true), SortMembers(ns, true);
      forall i | 0 <= i < |x| && i < |y| ensures SameThere(x[i], y[i], false) == SameThere(x[i], y[i], true) {
        assert x[i] in x && y[i] in y && x[i] in ms + ns && y[i] in ms + ns;
        SameThereAgrees(x[i], y[i]);
        if x[i].key == y[i].key {
          AlignedEqual(x[i].value, y[i].value);
        }
      }
      WalkIs(x, y, false);
      WalkIs(x, y, true);
    case _ =>
  }

  /** One step of the walk over sorted members. */
  ghost predicate SameThere(x: Member, y: Member, cs: bool) {
    Compare(Key(x.key, cs), Key(y.key, cs)) == 0 && SortedEqual(x.value, y.value, cs)
  }

  lemma SameThereAgrees(x: Member, y: Member)
    requires Agree(x, y) && Agree(y, x)
    ensures x.key != y.key ==> !SameThere(x, y, false) && !SameThere(x, y, true)
    ensures x.key == y.key ==> Compare(x.key, y.key) == 0 && Compare(Fold(x.key), Fold(y.key)) == 0
  {
    EqualKeysAgree(x, y);
    CompareZero(x.key, y.key);
    CompareZero(Fold(x.key), Fold(y.key));
  }

  lemma WalkIs(x: seq<Member>, y: seq<Member>, cs: bool)
    ensures MembersSortedEqual(x, y, cs) <==> |x| == |y| && forall i :: 0 <= i < |x| ==> SameThere(x[i], y[i], cs)
  {
  }

  /** Sorted in either mode, the members of two ordered objects are in the order of the other mode, too. */
  lemma SortOrdered(ms: seq<Member>, cs: bool, mode: bool)
    requires DistinctKeys(ms, mode) && (cs == mode || SameOrder(ms, ms))
    ensures var s := SortMembers(ms, cs);
      && Increasing(s, mode) && MembersMeaning(s, mode) == MembersMeaning(ms, mode)
      && forall m :: m in s <==> m in ms
  {
    SortMembersCorrect(ms, mode);
    if cs != mode {
      SortMembersAgree(ms);
    }
  }

  lemma OrderedEqual(f: Json, t: Json, cs: bool, mode: bool)
    requires Distinct(f, mode) && Distinct(t, mode) && ((cs && mode) || Aligned(f, t))
    ensures SortedEqual(f, t, cs) <==> Meaning(f, mode) == Meaning(t, mode)
  {
    if !(cs && mode) {
      AlignedEqual(f, t);
    }
    SortedEqualIsMeaning(f, t, mode);
  }

  /** Trees with lower-case keys are always in order. */
  predicate LowerKeys(v: Json) {
    match v
    case Array(items) => forall x :: x in items ==> LowerKeys(x)
    case Object(ms) => forall m :: m in ms ==> Fold(m.key) == m.key && LowerKeys(m.value)
    case _ => true
  }

  lemma {:induction false} LowerKeysAligned(f: Json, t: Json)
    requires LowerKeys(f) && LowerKeys(t)
    ensures Aligned(f, t)
    decreases f
  {
    match (f, t)
    case (Array(xs), Array(ys)) =>
      forall i | 0 <= i < |xs| && i < |ys| ensures Aligned(xs[i], ys[i]) {
        assert xs[i] in xs && ys[i] in ys;
        LowerKeysAligned(xs[i], ys[i]);
      }
    case (Object(ms), Object(ns)) =>
      forall x, y | x in ms && y in ns && x.key == y.key ensures Aligned(x.value, y.value) {
        LowerKeysAligned(x.value, y.value);
      }
    case _ =>
  }

  // ----- the generator computes the difference

  ghost predicate Generates(p: Option<Json>, f: Json, t: Json, mode: bool) {
    match p
    case Some(patch) => Distinct(patch, mode) && Meaning(patch, mode) == Diff(Meaning(f, mode), Meaning(t, mode))
                        && (f.Object? && t.Object? ==> Meaning(f, mode) != Meaning(t, mode))
    case None => f.Object? && t.Object? && Meaning(f, mode) == Meaning(t, mode)
  }

  lemma NoDifference(f: map<string, Value>, t: map<string, Value>)
    ensures DiffMembers(f, t) == map[] <==> f == t
  {
    var d := DiffMembers(f, t);
    if d == map[] {
      forall k | k in f ensures k in t && t[k] == f[k] {
        assert !Changed(f, t, k);
      }
      forall k | k in t ensures k in f {
        assert !Changed(f, t, k);
      }
    }
    if f == t {
      forall k ensures k !in d {
        assert !Changed(f, t, k);
      }
    }
  }

  /** In the meaning of either mode the patch is the difference, whatever mode it was generated in. */
  lemma {:induction false} GenerateIsDiff(f: Json, t: Json, cs: bool, mode: bool)
    requires Distinct(f, mode) && Distinct(t, mode) && Ordered(f, t, cs && mode)
    ensures Generates(Generate(f, t, cs), f, t, mode)
    decreases Height(f), 1, 0
  {
    if t.Object? && f.Object? {
      SortedHeights(f.members, cs);
      SortedReady(f.members, t.members, cs, mode);
      var fs, ts := SortMembers(f.members, cs), SortMembers(t.members, cs);
      GenerateMembersIsDiff(fs, ts, cs, mode);
      BuiltGenerates(GenerateMembers(fs, ts, cs), fs, ts, f, t, mode);
    }
  }

  lemma SortedReady(fm: seq<Member>, tm: seq<Member>, cs: bool, mode: bool)
    requires Distinct(Object(fm), mode) && Distinct(Object(tm), mode) && Ordered(Object(fm), Object(tm), cs && mode)
    ensures var fs, ts := SortMembers(fm, cs), SortMembers(tm, cs);
      && Ready(fs, ts, cs, mode)
      && MembersMeaning(fs, mode) == MembersMeaning(fm, mode) && MembersMeaning(ts, mode) == MembersMeaning(tm, mode)
  {
    SortOrdered(fm, cs, mode);
    SortOrdered(tm, cs, mode);
  }

  lemma BuiltGenerates(ps: seq<Member>, fs: seq<Member>, ts: seq<Member>, f: Json, t: Json, mode: bool)
    requires f.Object? && t.Object? && Built(ps, fs, ts, mode)
    requires MembersMeaning(fs, mode) == MembersMeaning(f.members, mode)
    requires MembersMeaning(ts, mode) == MembersMeaning(t.members, mode)
    ensures Generates(if ps == [] then None else Some(Object(ps)), f, t, mode)
  {
    PatchMembersDistinct(ps, mode);
    NoDifference(MembersMeaning(fs, mode), MembersMeaning(ts, mode));
    MeaningKeys(ps, mode);
    if ps != [] {
      assert Key(ps[0].key, mode) in MembersMeaning(ps, mode);
    }
  }

  ghost predicate ValuesDistinct(ms: seq<Member>, mode: bool) {
    forall m :: m in ms ==> Distinct(m.value, mode)
  }

  lemma PatchMembersDistinct(ps: seq<Member>, mode: bool)
    requires ValuesDistinct(ps, mode) && Increasing(ps, mode)
    ensures Distinct(Object(ps), mode)
  {
    forall i, j | 0 <= i < j < |ps| ensures Key(ps[i].key, mode) != Key(ps[j].key, mode) {
      Trichotomy(Key(ps[i].key, mode), Key(ps[j].key, mode));
    }
    forall i | 0 <= i < |ps| ensures Distinct(ps[i].value, mode) {
      assert ps[i] in ps;
    }
  }

  ghost predicate KeyFrom(m: Member, fs: seq<Member>, ts: seq<Member>) {
    exists x :: (x in fs || x in ts) && x.key == m.key
  }

  /** The members of two objects, sorted and still to be merged. */
  ghost predicate Ready(fs: seq<Member>, ts: seq<Member>, cs: bool, mode: bool) {
    && Increasing(fs, mode) && Increasing(ts, mode)
    && ValuesDistinct(fs, mode) && ValuesDistinct(ts, mode)
    && ((cs && mode) || SameOrder(fs, ts))
    && Paired(fs, ts, cs && mode)
  }

  lemma ReadyTails(fs: seq<Member>, ts: seq<Member>, fs': seq<Member>, ts': seq<Member>, cs: bool, mode: bool)
    requires Ready(fs, ts, cs, mode)
    requires fs' == fs || (fs != [] && fs' == fs[1..])
    requires ts' == ts || (ts != [] && ts' == ts[1..])
    ensures Ready(fs', ts', cs, mode)
  {
    assert forall x :: x in fs' ==> x in fs;
    assert forall x :: x in ts' ==> x in ts;
  }

  /** The order of the merge loop is the order of the lists. */
  lemma ReadyOrder(fs: seq<Member>, ts: seq<Member>, cs: bool, mode: bool)
    requires Ready(fs, ts, cs, mode) && fs != [] && ts != []
    ensures Less(fs[0].key, ts[0].key) <==> Less(Key(fs[0].key, mode), Key(ts[0].key, mode))
    ensures Less(ts[0].key, fs[0].key) <==> Less(Key(ts[0].key, mode), Key(fs[0].key, mode))
  {
    if !mode {
      assert fs[0] in fs + ts && ts[0] in fs + ts;
      assert Agree(fs[0], ts[0]) && Agree(ts[0], fs[0]);
    }
  }

  /** A patch member list that is the difference of two member lists. */
  ghost predicate Built(ps: seq<Member>, fs: seq<Member>, ts: seq<Member>, mode: bool) {
    && ValuesDistinct(ps, mode) && Increasing(ps, mode)
    && (forall m :: m in ps ==> KeyFrom(m, fs, ts))
    && MembersMeaning(ps, mode) == DiffMembers(MembersMeaning(fs, mode), MembersMeaning(ts, mode))
  }

  lemma KeyFromMore(m: Member, fs: seq<Member>, ts: seq<Member>, fs': seq<Member>, ts': seq<Member>)
    requires KeyFrom(m, fs', ts')
    requires forall x :: x in fs' ==> x in fs
    requires forall x :: x in ts' ==> x in ts
    ensures KeyFrom(m, fs, ts)
  {
  }

  /** The merge loop builds the difference of the two member lists, with increasing keys. */
  lemma {:induction false} GenerateMembersIsDiff(fs: seq<Member>, ts: seq<Member>, cs: bool, mode: bool)
    requires Ready(fs, ts, cs, mode)
    ensures Built(GenerateMembers(fs, ts, cs), fs, ts, mode)
    decreases MembersHeight(fs) + 1, 0, 2 * (|fs| + |ts|)
  {
    if fs == [] && ts == [] {
      NoDifference(map[], map[]);
    } else {
      var diff := KeyDiff(fs, ts, true);
      if diff < 0 {
        GenerateRemoves(fs, ts, cs, mode);
      } else if diff > 0 {
        GenerateAdds(fs, ts, cs, mode);
      } else {
        GenerateKeeps(fs, ts, cs, mode);
      }
    }
  }

  /** Keys of the rest of the patch come from the rest of the lists, so a smaller key goes in front. */
  lemma PutInFront(x: Member, ps: seq<Member>, fs: seq<Member>, ts: seq<Member>, mode: bool)
    requires Increasing(ps, mode) && Increasing(fs, mode) && Increasing(ts, mode)
    requires forall m :: m in ps ==> KeyFrom(m, fs, ts)
    requires fs == [] || Less(Key(x.key, mode), Key(fs[0].key, mode))
    requires ts == [] || Less(Key(x.key, mode), Key(ts[0].key, mode))
    ensures Increasing([x] + ps, mode)
    ensures Key(x.key, mode) !in MembersMeaning(ps, mode)
    ensures MembersMeaning([x] + ps, mode) == MembersMeaning(ps, mode)[Key(x.key, mode) := Meaning(x.value, mode)]
  {
    forall m | m in ps ensures Less(Key(x.key, mode), Key(m.key, mode)) {
      assert KeyFrom(m, fs, ts);
      var y :| (y in fs || y in ts) && y.key == m.key;
      if y in fs {
        AheadOfAll(Key(x.key, mode), fs, y, mode);
      } else {
        AheadOfAll(Key(x.key, mode), ts, y, mode);
      }
    }
    assert ([x] + ps)[1..] == ps;
    MeaningKeys(ps, mode);
    Trichotomy(Key(x.key, mode), Key(x.key, mode));
    forall i | 0 <= i < |ps| ensures Key(ps[i].key, mode) != Key(x.key, mode) {
      assert ps[i] in ps;
    }
  }

  lemma AheadOfAll(k: string, ms: seq<Member>, y: Member, mode: bool)
    requires Increasing(ms, mode) && y in ms && Less(k, Key(ms[0].key, mode))
    ensures Less(k, Key(y.key, mode))
  {
    var i :| 0 <= i < |ms| && ms[i] == y;
    if i > 0 {
      LessTransitive(k, Key(ms[0].key, mode), Key(ms[i].key, mode));
    }
  }

  lemma {:induction false} GenerateRemoves(fs: seq<Member>, ts: seq<Member>, cs: bool, mode: bool)
    requires Ready(fs, ts, cs, mode) && fs != [] && KeyDiff(fs, ts, true) < 0
    ensures Built(GenerateMembers(fs, ts, cs), fs, ts, mode)
    decreases MembersHeight(fs) + 1, 0, 2 * (|fs| + |ts|) - 1
  {
    var f, fs' := fs[0], fs[1..];
    var k := Key(f.key, mode);
    TailMembersHeight(fs);
    HeadMeaning(fs, mode);
    ReadyTails(fs, ts, fs', ts, cs, mode);
    GenerateMembersIsDiff(fs', ts, cs, mode);
    if ts != [] {
      ReadyOrder(fs, ts, cs, mode);
    }
    var ps, x := GenerateMembers(fs', ts, cs), Member(f.key, Null);
    assert f in fs;
    PutInFront(x, ps, fs', ts, mode);
    NotAhead(ts, k, mode);
    DiffRemove(MembersMeaning(fs', mode), MembersMeaning(ts, mode), k, Meaning(f.value, mode));
    forall m | m in [x] + ps ensures KeyFrom(m, fs, ts) {
      if m in ps {
        KeyFromMore(m, fs, ts, fs', ts);
      }
    }
  }

  lemma DiffRemove(fm: map<string, Value>, tm: map<string, Value>, k: string, v: Value)
    requires k !in fm && k !in tm
    ensures DiffMembers(fm[k := v], tm) == DiffMembers(fm, tm)[k := VNull]
  {
    var a, b := DiffMembers(fm[k := v], tm), DiffMembers(fm, tm)[k := VNull];
    assert forall j :: j != k ==> (Changed(fm[k := v], tm, j) <==> Changed(fm, tm, j));
    assert forall j :: j in a <==> j in b;
  }

  lemma {:induction false} GenerateAdds(fs: seq<Member>, ts: seq<Member>, cs: bool, mode: bool)
    requires Ready(fs, ts, cs, mode) && ts != [] && KeyDiff(fs, ts, true) > 0
    ensures Built(GenerateMembers(fs, ts, cs), fs, ts, mode)
    decreases MembersHeight(fs) + 1, 0, 2 * (|fs| + |ts|) - 1
  {
    var t, ts' := ts[0], ts[1..];
    var k := Key(t.key, mode);
    HeadMeaning(ts, mode);
    ReadyTails(fs, ts, fs, ts', cs, mode);
    GenerateMembersIsDiff(fs, ts', cs, mode);
    var ps := GenerateMembers(fs, ts', cs);
    assert t in ts;
    if fs != [] {
      CompareSymmetric(fs[0].key, t.key);
      ReadyOrder(fs, ts, cs, mode);
    }
    PutInFront(t, ps, fs, ts', mode);
    NotAhead(fs, k, mode);
    DiffAdd(MembersMeaning(fs, mode), MembersMeaning(ts', mode), k, Meaning(t.value, mode));
    forall m | m in [t] + ps ensures KeyFrom(m, fs, ts) {
      if m in ps {
        KeyFromMore(m, fs, ts, fs, ts');
      }
    }
  }

  lemma DiffAdd(fm: map<string, Value>, tm: map<string, Value>, k: string, v: Value)
    requires k !in fm && k !in tm
    ensures DiffMembers(fm, tm[k := v]) == DiffMembers(fm, tm)[k := v]
  {
    var a, b := DiffMembers(fm, tm[k := v]), DiffMembers(fm, tm)[k := v];
    assert forall j :: j != k ==> (Changed(fm, tm[k := v], j) <==> Changed(fm, tm, j));
    assert forall j :: j in a <==> j in b;
  }

  lemma {:induction false} GenerateKeeps(fs: seq<Member>, ts: seq<Member>, cs: bool, mode: bool)
    requires Ready(fs, ts, cs, mode) && fs != [] && ts != [] && KeyDiff(fs, ts, true) == 0
    ensures Built(GenerateMembers(fs, ts, cs), fs, ts, mode)
    decreases MembersHeight(fs) + 1, 0, 2 * (|fs| + |ts|) - 1
  {
    var f, t, fs', ts' := fs[0], ts[0], fs[1..], ts[1..];
    TailMembersHeight(fs);
    CompareZero(f.key, t.key);
    assert f in fs && t in ts;
    ReadyTails(fs, ts, fs', ts', cs, mode);
    GenerateMembersIsDiff(fs', ts', cs, mode);
    GenerateMemberIsDiff(f, t, cs, mode);
    KeepInFront(fs, ts, GenerateMember(f, t, cs), GenerateMembers(fs', ts', cs), mode);
  }

  /** The patch for one key of both objects. */
  ghost predicate OneKey(xs: seq<Member>, f: Member, t: Member, mode: bool) {
    if Meaning(f.value, mode) == Meaning(t.value, mode) then xs == []
    else
      && |xs| == 1 && xs[0].key == t.key && Distinct(xs[0].value, mode)
      && Meaning(xs[0].value, mode) == Diff(Meaning(f.value, mode), Meaning(t.value, mode))
  }

  lemma KeepInFront(fs: seq<Member>, ts: seq<Member>, xs: seq<Member>, ps: seq<Member>, mode: bool)
    requires fs != [] && ts != [] && fs[0].key == ts[0].key && Increasing(fs, mode) && Increasing(ts, mode)
    requires Built(ps, fs[1..], ts[1..], mode) && OneKey(xs, fs[0], ts[0], mode)
    ensures Built(xs + ps, fs, ts, mode)
  {
    var f, t, fs', ts' := fs[0], ts[0], fs[1..], ts[1..];
    HeadMeaning(fs, mode);
    HeadMeaning(ts, mode);
    DiffKeep(MembersMeaning(fs', mode), MembersMeaning(ts', mode), Key(t.key, mode), Meaning(f.value, mode), Meaning(t.value, mode));
    forall m | m in ps ensures KeyFrom(m, fs, ts) {
      KeyFromMore(m, fs, ts, fs', ts');
    }
    if xs == [] {
      assert xs + ps == ps;
    } else {
      PutInFront(xs[0], ps, fs', ts', mode);
      assert t in ts;
      assert xs == [xs[0]] && KeyFrom(xs[0], fs, ts);
    }
  }

  /** One key of both objects. */
  lemma {:induction false} GenerateMemberIsDiff(f: Member, t: Member, cs: bool, mode: bool)
    requires Distinct(f.value, mode) && Distinct(t.value, mode)
    requires (cs && mode && Settled(f.value, t.value)) || Aligned(f.value, t.value)
    ensures OneKey(GenerateMember(f, t, cs), f, t, mode)
    decreases Height(f.value), 2, 0
  {
    OrderedEqual(f.value, t.value, cs, mode);
    if Aligned(f.value, t.value) {
      GenerateIsDiff(f.value, t.value, false, mode);
    }
  }

  lemma DiffKeep(fm: map<string, Value>, tm: map<string, Value>, k: string, u: Value, v: Value)
    requires k !in fm && k !in tm
    ensures DiffMembers(fm[k := u], tm[k := v]) ==
            if u == v then DiffMembers(fm, tm) else DiffMembers(fm, tm)[k := Diff(u, v)]
  {
    var a, b := DiffMembers(fm[k := u], tm[k := v]), DiffMembers(fm, tm);
    DiffElsewhere(fm, tm, k, u, v);
    assert Changed(fm[k := u], tm[k := v], k) <==> u != v;
    if u != v {
      assert a[k] == Diff(u, v);
    }
  }

  lemma DiffElsewhere(fm: map<string, Value>, tm: map<string, Value>, k: string, u: Value, v: Value)
    requires k !in fm && k !in tm
    ensures var a, b := DiffMembers(fm[k := u], tm[k := v]), DiffMembers(fm, tm);
      forall j :: j != k ==> (j in a <==> j in b) && (j in b ==> a[j] == b[j])
    ensures k !in DiffMembers(fm, tm)
  {
    assert forall j :: j != k ==> (Changed(fm[k := u], tm[k := v], j) <==> Changed(fm, tm, j));
  }

  // ----- the round trip

  /** No patch is returned exactly for two objects that are equal up to member order. */
  lemma NoPatchIffEqual(from: Json, to: Json, cs: bool, mode: bool)
    requires Distinct(from, mode) && Distinct(to, mode) && Ordered(from, to, cs && mode)
    ensures Generate(from, to, cs).None? <==>
            from.Object? && to.Object? && Meaning(from, mode) == Meaning(to, mode)
  {
    GenerateIsDiff(from, to, cs, mode);
  }

  /**
   Merging the generated patch into a copy of `from` gives `to` up to member order if and only if every
   null member of `to` was already null in `from`. The modes of the two calls need not agree.
   */
  lemma MergePatchRoundTrip(from: Json, to: Json, cs: bool, mode: bool)
    requires Distinct(from, mode) && Distinct(to, mode) && Ordered(from, to, cs && mode)
    requires Generate(from, to, cs).Some?
    ensures Meaning(Merge(Some(from), Generate(from, to, cs).value, mode), mode) == Meaning(to, mode)
            <==> NullsKept(Meaning(from, mode), Meaning(to, mode))
  {
    var patch := Generate(from, to, cs).value;
    GenerateIsDiff(from, to, cs, mode);
    MergeIsRfc(Some(from), patch, mode);
    MergeDiff(Meaning(from, mode), Meaning(to, mode));
  }

  lemma {:induction false} NoNullsKept(f: Value, t: Value)
    requires NoNullMembers(t)
    ensures NullsKept(f, t)
    decreases t
  {
    if t.VObj? {
      forall k | k in t.m ensures NullsKept(Old(Base(f), k), t.m[k]) {
        NoNullsKept(Old(Base(f), k), t.m[k]);
      }
    }
  }

  predicate NoNullMembers(t: Value) {
    t.VObj? ==> forall k :: k in t.m ==> !t.m[k].VNull? && NoNullMembers(t.m[k])
  }

  /** In particular it always works when no object reached through objects in `to` has a null member. */
  lemma MergePatchRoundTripWithoutNulls(from: Json, to: Json, cs: bool, mode: bool)
    requires Distinct(from, mode) && Distinct(to, mode) && Ordered(from, to, cs && mode)
    requires NoNullMembers(Meaning(to, mode))
    ensures var patch := Generate(from, to, cs);
            if patch.None? then Meaning(from, mode) == Meaning(to, mode)
            else Meaning(Merge(Some(from), patch.value, mode), mode) == Meaning(to, mode)
  {
    GenerateIsDiff(from, to, cs, mode);
    NoNullsKept(Meaning(from, mode), Meaning(to, mode));
    if Generate(from, to, cs).Some? {
      MergePatchRoundTrip(from, to, cs, mode);
    }
  }
}
