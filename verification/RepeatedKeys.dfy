/**
 The two comparisons on trees with repeated keys. `cJSON_Compare` looks at the first member of each key, so
 it accepts repeats that mean the same; `compare_json` counts members.
 */
module RepeatedKeys {
  import opened CString
  import opened Json
  import opened Sorting
  import opened Comparison

  /** Members with the same key mean the same, at every level. */
  predicate Coherent(v: Json, cs: bool) {
    match v
    case Array(items) => forall i :: 0 <= i < |items| ==> Coherent(items[i], cs)
    case Object(ms) =>
      forall i :: 0 <= i < |ms| ==>
        Coherent(ms[i].value, cs) && Meaning(ms[i].value, cs) == Meaning(ms[Find(ms, ms[i].key, cs)].value, cs)
    case _ => true
  }

  lemma {:induction false} FindSameKey(ms: seq<Member>, j: string, k: string, cs: bool)
    requires Key(j, cs) == Key(k, cs)
    ensures Find(ms, j, cs) == Find(ms, k, cs)
  {
    if ms != [] {
      FindSameKey(ms[1..], j, k, cs);
    }
  }

  /** `cJSON_Compare` on all trees. */
  lemma {:induction false} LookupEqualExactly(a: Json, b: Json, cs: bool)
    ensures LookupEqual(a, b, cs) <==> Coherent(a, cs) && Coherent(b, cs) && Meaning(a, cs) == Meaning(b, cs)
    decreases Height(a) + Height(b), 0
  {
    match (a, b)
    case (Number(m), Number(n)) => CompareDoubleExact(m, n);
    case (Str(s), Str(t)) => CompareZero(s, t);
    case (Array(xs), Array(ys)) => ItemsExactly(xs, ys, cs);
    case (Object(ms), Object(ns)) => MembersExactly(ms, ns, cs);
    case _ =>
  }

  lemma {:induction false} ItemsExactly(xs: seq<Json>, ys: seq<Json>, cs: bool)
    ensures ItemsLookupEqual(xs, ys, cs) <==>
            Coherent(Array(xs), cs) && Coherent(Array(ys), cs) && Meanings(xs, cs) == Meanings(ys, cs)
    decreases ItemsHeight(xs) + ItemsHeight(ys) + 1, 0
  {
    EqualMeanings(xs, ys, cs);
    forall i | 0 <= i < |xs| && i < |ys|
      ensures LookupEqual(xs[i], ys[i], cs) <==>
              Coherent(xs[i], cs) && Coherent(ys[i], cs) && Meaning(xs[i], cs) == Meaning(ys[i], cs)
    {
      LookupEqualExactly(xs[i], ys[i], cs);
    }
  }

  lemma {:induction false} MembersExactly(ms: seq<Member>, ns: seq<Member>, cs: bool)
    ensures LookupCovers(ms, ns, cs) && LookupCovers(ns, ms, cs) <==>
            Coherent(Object(ms), cs) && Coherent(Object(ns), cs) && MembersMeaning(ms, cs) == MembersMeaning(ns, cs)
    decreases MembersHeight(ms) + MembersHeight(ns) + 1, 2
  {
    if LookupCovers(ms, ns, cs) && LookupCovers(ns, ms, cs) {
      CoversCoherent(ms, ns, cs);
      CoversCoherent(ns, ms, cs);
      assert MembersMeaning(ms, cs) == MembersMeaning(ns, cs);
    }
    if Coherent(Object(ms), cs) && Coherent(Object(ns), cs) && MembersMeaning(ms, cs) == MembersMeaning(ns, cs) {
      CoherentCovers(ms, ns, cs);
      CoherentCovers(ns, ms, cs);
    }
  }

  /** If every member of `ms` is found in `ns`, repeats in `ms` mean the same. */
  lemma {:induction false} CoversCoherent(ms: seq<Member>, ns: seq<Member>, cs: bool)
    requires LookupCovers(ms, ns, cs)
    ensures Coherent(Object(ms), cs)
    ensures Submap(MembersMeaning(ms, cs), MembersMeaning(ns, cs))
    decreases MembersHeight(ms) + MembersHeight(ns) + 1, 1
  {
    forall i | 0 <= i < |ms|
      ensures Coherent(ms[i].value, cs)
      ensures Meaning(ms[i].value, cs) == Meaning(ms[Find(ms, ms[i].key, cs)].value, cs)
    {
      var f := Find(ms, ms[i].key, cs);
      FoundMeans(ms, ns, i, cs);
      FoundMeans(ms, ns, f, cs);
      FindSameKey(ns, ms[f].key, ms[i].key, cs);
    }
    MeaningKeys(ms, cs);
    var m, n := MembersMeaning(ms, cs), MembersMeaning(ns, cs);
    forall k | k in m ensures k in n && m[k] == n[k] {
      var i :| 0 <= i < |ms| && Key(ms[i].key, cs) == k;
      FoundMeans(ms, ns, i, cs);
      MeaningIsLookup(ms, ms[i].key, cs);
      MeaningIsLookup(ns, ms[i].key, cs);
    }
  }

  lemma {:induction false} FoundMeans(ms: seq<Member>, ns: seq<Member>, i: nat, cs: bool)
    requires LookupCovers(ms, ns, cs) && i < |ms|
    ensures var j := Find(ns, ms[i].key, cs);
            j < |ns| && Coherent(ms[i].value, cs) && Meaning(ms[i].value, cs) == Meaning(ns[j].value, cs)
    decreases MembersHeight(ms) + MembersHeight(ns) + 1, 0
  {
    LookupEqualExactly(ms[i].value, ns[Find(ns, ms[i].key, cs)].value, cs);
  }

  lemma {:induction false} CoherentCovers(ms: seq<Member>, ns: seq<Member>, cs: bool)
    requires Coherent(Object(ms), cs) && Coherent(Object(ns), cs)
    requires MembersMeaning(ms, cs) == MembersMeaning(ns, cs)
    ensures LookupCovers(ms, ns, cs)
    decreases MembersHeight(ms) + MembersHeight(ns) + 1, 1
  {
    forall i | 0 <= i < |ms|
      ensures var j := Find(ns, ms[i].key, cs); j < |ns| && LookupEqual(ms[i].value, ns[j].value, cs)
    {
      MeaningIsLookup(ms, ms[i].key, cs);
      MeaningIsLookup(ns, ms[i].key, cs);
      LookupEqualExactly(ms[i].value, ns[Find(ns, ms[i].key, cs)].value, cs);
    }
  }

  /**
   On all trees `cJSON_Compare` is symmetric and transitive, and every item equals itself. A separate copy equals
   the original exactly where members with the same key mean the same.
   */
  lemma LookupIsPartialEquivalence(a: Json, b: Json, c: Json, ab: bool, bc: bool, cs: bool)
    requires (ab ==> a == b) && (bc ==> b == c)
    ensures Compared(a, a, true, cs)
    ensures Compared(a, a, false, cs) <==> Coherent(a, cs)
    ensures Compared(a, b, ab, cs) ==> Compared(b, a, ab, cs)
    ensures Compared(a, b, ab, cs) && Compared(b, c, bc, cs) ==> Compared(a, c, ab && bc, cs)
  {
    LookupEqualExactly(a, a, cs);
    LookupEqualExactly(a, b, cs);
    LookupEqualExactly(b, a, cs);
    LookupEqualExactly(b, c, cs);
    LookupEqualExactly(a, c, cs);
  }

  // ----- dropping repeats

  /** The tree with the first member of each key only, at every level. */
  function Once(v: Json, cs: bool): Json
    decreases v, 1
  {
    match v
    case Array(items) => Array(OnceAll(items, cs))
    case Object(ms) => Object(OnceMembers(ms, cs))
    case _ => v
  }

  function OnceAll(items: seq<Json>, cs: bool): (r: seq<Json>)
    ensures |r| == |items| && forall i :: 0 <= i < |r| ==> r[i] == Once(items[i], cs)
    decreases items, 0
  {
    if items == [] then [] else [Once(items[0], cs)] + OnceAll(items[1..], cs)
  }

  function OnceMembers(ms: seq<Member>, cs: bool): seq<Member>
    decreases ms, 0
  {
    if ms == [] then []
    else [OnceMember(ms[0], cs)] + WithoutKey(OnceMembers(ms[1..], cs), Key(ms[0].key, cs), cs)
  }

  function OnceMember(m: Member, cs: bool): Member
    decreases m, 2
  {
    Member(m.key, Once(m.value, cs))
  }

  function WithoutKey(ms: seq<Member>, k: string, cs: bool): seq<Member> {
    if ms == [] then []
    else (if Key(ms[0].key, cs) == k then [] else [ms[0]]) + WithoutKey(ms[1..], k, cs)
  }

  lemma {:induction false} WithoutKeyHas(ms: seq<Member>, k: string, cs: bool)
    ensures forall x :: x in WithoutKey(ms, k, cs) ==> x in ms && Key(x.key, cs) != k
  {
    if ms != [] {
      WithoutKeyHas(ms[1..], k, cs);
    }
  }

  lemma {:induction false} WithoutKeyDistinct(ms: seq<Member>, k: string, cs: bool)
    requires DistinctKeys(ms, cs)
    ensures DistinctKeys(WithoutKey(ms, k, cs), cs)
  {
    if ms != [] {
      WithoutKeyDistinct(ms[1..], k, cs);
      WithoutKeyHas(ms[1..], k, cs);
      ConsDistinct(ms[0], ms[1..], WithoutKey(ms[1..], k, cs), cs);
    }
  }

  /** In front of members taken from `rest`, a key that `rest` does not have. */
  lemma ConsDistinct(m: Member, rest: seq<Member>, w: seq<Member>, cs: bool)
    requires DistinctKeys(w, cs) && forall x :: x in w ==> x in rest
    requires forall i :: 0 <= i < |rest| ==> Key(rest[i].key, cs) != Key(m.key, cs)
    ensures DistinctKeys([m] + w, cs)
  {
    forall i | 0 <= i < |w| ensures Key(w[i].key, cs) != Key(m.key, cs) {
      assert w[i] in rest;
    }
  }

  lemma {:induction false} WithoutKeyMeaning(ms: seq<Member>, k: string, cs: bool)
    ensures MembersMeaning(WithoutKey(ms, k, cs), cs) == MembersMeaning(ms, cs) - {k}
  {
    if ms != [] {
      var w := WithoutKey(ms[1..], k, cs);
      WithoutKeyMeaning(ms[1..], k, cs);
      RemovePut(MembersMeaning(ms[1..], cs), k, Key(ms[0].key, cs), Meaning(ms[0].value, cs));
      if Key(ms[0].key, cs) != k {
        assert ([ms[0]] + w)[1..] == w;
      } else {
        assert [] + w == w;
      }
    }
  }

  lemma RemovePut(m: map<string, Value>, k: string, j: string, v: Value)
    ensures m[j := v] - {k} == if j == k then m - {k} else (m - {k})[j := v]
  {
  }

  /** Dropping repeats leaves distinct keys and the same meaning. */
  lemma {:induction false} OnceDistinct(v: Json, cs: bool)
    ensures Distinct(Once(v, cs), cs) && Meaning(Once(v, cs), cs) == Meaning(v, cs)
    decreases v, 1
  {
    match v
    case Array(items) =>
      forall i | 0 <= i < |items|
        ensures Distinct(Once(items[i], cs), cs) && Meaning(Once(items[i], cs), cs) == Meaning(items[i], cs)
      {
        OnceDistinct(items[i], cs);
      }
      EqualMeanings(OnceAll(items, cs), items, cs);
    case Object(ms) => OnceMembersDistinct(ms, cs);
    case _ =>
  }

  lemma {:induction false} OnceMembersDistinct(ms: seq<Member>, cs: bool)
    ensures DistinctKeys(OnceMembers(ms, cs), cs)
    ensures forall x :: x in OnceMembers(ms, cs) ==> Distinct(x.value, cs)
    ensures MembersMeaning(OnceMembers(ms, cs), cs) == MembersMeaning(ms, cs)
    decreases ms, 0
  {
    if ms != [] {
      var rest := OnceMembers(ms[1..], cs);
      OnceMembersDistinct(ms[1..], cs);
      OnceMemberDistinct(ms[0], cs);
      FirstOnly(OnceMember(ms[0], cs), rest, cs);
      assert MembersMeaning(ms, cs) == MembersMeaning(ms[1..], cs)[Key(ms[0].key, cs) := Meaning(ms[0].value, cs)];
    }
  }

  lemma FirstOnly(m: Member, rest: seq<Member>, cs: bool)
    requires DistinctKeys(rest, cs) && (forall x :: x in rest ==> Distinct(x.value, cs)) && Distinct(m.value, cs)
    ensures var r := [m] + WithoutKey(rest, Key(m.key, cs), cs);
      && DistinctKeys(r, cs) && (forall x :: x in r ==> Distinct(x.value, cs))
      && MembersMeaning(r, cs) == MembersMeaning(rest, cs)[Key(m.key, cs) := Meaning(m.value, cs)]
  {
    FirstOnlyDistinct(m, rest, cs);
    FirstOnlyMeaning(m, rest, cs);
    WithoutKeyHas(rest, Key(m.key, cs), cs);
  }

  lemma FirstOnlyDistinct(m: Member, rest: seq<Member>, cs: bool)
    requires DistinctKeys(rest, cs)
    ensures DistinctKeys([m] + WithoutKey(rest, Key(m.key, cs), cs), cs)
  {
    var w := WithoutKey(rest, Key(m.key, cs), cs);
    WithoutKeyHas(rest, Key(m.key, cs), cs);
    WithoutKeyDistinct(rest, Key(m.key, cs), cs);
    assert forall i :: 0 <= i < |w| ==> w[i] in w;
    ConsDistinct(m, w, w, cs);
  }

  lemma FirstOnlyMeaning(m: Member, rest: seq<Member>, cs: bool)
    ensures MembersMeaning([m] + WithoutKey(rest, Key(m.key, cs), cs), cs)
         == MembersMeaning(rest, cs)[Key(m.key, cs) := Meaning(m.value, cs)]
  {
    var k := Key(m.key, cs);
    var w := WithoutKey(rest, k, cs);
    WithoutKeyMeaning(rest, k, cs);
    assert ([m] + w)[1..] == w;
    assert (MembersMeaning(rest, cs) - {k})[k := Meaning(m.value, cs)] == MembersMeaning(rest, cs)[k := Meaning(m.value, cs)];
  }

  lemma {:induction false} OnceMemberDistinct(m: Member, cs: bool)
    ensures Distinct(OnceMember(m, cs).value, cs) && Meaning(OnceMember(m, cs).value, cs) == Meaning(m.value, cs)
    decreases m, 2
  {
    OnceDistinct(m.value, cs);
  }

  // ----- distinct keys are what agreement needs

  /** A tree that `compare_json` finds equal to one with distinct keys has distinct keys. */
  lemma {:induction false} SortedEqualDistinct(a: Json, b: Json, cs: bool)
    requires SortedEqual(a, b, cs) && Distinct(b, cs)
    ensures Distinct(a, cs)
    decreases Height(a), 0
  {
    match (a, b)
    case (Array(xs), Array(ys)) =>
      forall i | 0 <= i < |xs| ensures Distinct(xs[i], cs) {
        SortedEqualDistinct(xs[i], ys[i], cs);
      }
    case (Object(ms), Object(ns)) =>
      SortedHeights(ms, cs);
      SortedDistinct(ns, cs);
      MembersEqualDistinct(SortMembers(ms, cs), SortMembers(ns, cs), cs);
      UnsortedDistinct(ms, cs);
    case _ =>
  }

  lemma {:induction false} MembersEqualDistinct(x: seq<Member>, y: seq<Member>, cs: bool)
    requires MembersSortedEqual(x, y, cs) && Distinct(Object(y), cs)
    ensures Distinct(Object(x), cs)
    decreases MembersHeight(x), 1
  {
    forall i | 0 <= i < |x| ensures Distinct(x[i].value, cs) && Key(x[i].key, cs) == Key(y[i].key, cs) {
      CompareZero(Key(x[i].key, cs), Key(y[i].key, cs));
      SortedEqualDistinct(x[i].value, y[i].value, cs);
    }
  }

  lemma UnsortedDistinct(ms: seq<Member>, cs: bool)
    requires Distinct(Object(SortMembers(ms, cs)), cs)
    ensures Distinct(Object(ms), cs)
  {
    var x := SortMembers(ms, cs);
    SortPermutes(ms, MemberKey(cs));
    SameMembers(ms, x);
    PermutedDistinct(x, ms, cs);
    forall i | 0 <= i < |ms| ensures Distinct(ms[i].value, cs) {
      assert ms[i] in x;
    }
  }

  predicate AgreeOn(a: Json, b: Json, cs: bool) {
    SortedEqual(a, b, cs) <==> LookupEqual(a, b, cs)
  }

  /**
   Among trees in which members with the same key mean the same, those with distinct keys are exactly the ones
   on which both comparisons agree with every separate tree that has distinct keys.
   */
  lemma DistinctIsWeakest(a: Json, cs: bool)
    ensures Distinct(a, cs) <==> Coherent(a, cs) && forall b :: Distinct(b, cs) ==> AgreeOn(a, b, cs)
  {
    LookupEqualExactly(a, a, cs);
    if Distinct(a, cs) {
      LookupEqualIsMeaning(a, a, cs);
      forall b | Distinct(b, cs) ensures AgreeOn(a, b, cs) {
        ComparisonsAgree(a, b, cs);
      }
    }
    if Coherent(a, cs) && forall b :: Distinct(b, cs) ==> AgreeOn(a, b, cs) {
      OnceAgrees(a, cs);
      assert AgreeOn(a, Once(a, cs), cs);
      SortedEqualDistinct(a, Once(a, cs), cs);
    }
  }

  /** Where they do not mean the same, both comparisons agree: no separate tree with distinct keys is equal. */
  lemma IncoherentEqualsNone(a: Json, b: Json, cs: bool)
    requires !Coherent(a, cs) && Distinct(b, cs)
    ensures !SortedEqual(a, b, cs) && !LookupEqual(a, b, cs)
  {
    LookupEqualExactly(a, b, cs);
    if SortedEqual(a, b, cs) {
      SortedEqualDistinct(a, b, cs);
      LookupEqualIsMeaning(a, a, cs);
      LookupEqualExactly(a, a, cs);
    }
  }

  /** Exactly the trees on which both comparisons agree with every separate tree that has distinct keys. */
  lemma AgreementExactly(a: Json, cs: bool)
    ensures (forall b :: Distinct(b, cs) ==> AgreeOn(a, b, cs)) <==> Distinct(a, cs) || !Coherent(a, cs)
  {
    DistinctIsWeakest(a, cs);
    if !Coherent(a, cs) {
      forall b | Distinct(b, cs) ensures AgreeOn(a, b, cs) {
        IncoherentEqualsNone(a, b, cs);
      }
    }
  }

  /** The witness: the tree without its repeats. */
  lemma OnceAgrees(a: Json, cs: bool)
    requires Coherent(a, cs)
    ensures Distinct(Once(a, cs), cs) && LookupEqual(a, Once(a, cs), cs)
  {
    OnceDistinct(a, cs);
    LookupEqualExactly(a, a, cs);
    LookupEqualIsMeaning(Once(a, cs), Once(a, cs), cs);
    LookupEqualExactly(Once(a, cs), Once(a, cs), cs);
    LookupEqualExactly(a, Once(a, cs), cs);
  }
}
