/**
 The two structural comparisons: `compare_json`, which sorts both objects and walks them side by
 side, and `cJSON_Compare`, which looks every member of each object up in the other. On trees with
 distinct sibling keys both decide equality up to member order.
 */
module Comparison {
  import opened CString
  import opened Json
  import opened Sorting

  const INT_MAX: int := 0x7fff_ffff
  const INT_MIN: int := -0x8000_0000
  const DBL_EPSILON: real := 1.0 / 4503599627370496.0

  /** `valueint`: the number, saturated to `int`. */
  function ValueInt(n: Num): int {
    if n >= INT_MAX then INT_MAX else if n <= INT_MIN then INT_MIN else n
  }

  function Abs(x: real): real {
    if x < 0.0 then -x else x
  }

  /** `compare_double`, on exact reals. */
  predicate CompareDouble(a: real, b: real) {
    var maxVal := if Abs(a) > Abs(b) then Abs(a) else Abs(b);
    Abs(a - b) <= maxVal * DBL_EPSILON
  }

  /** The relative tolerance never confuses two different modelled numbers. */
  lemma CompareDoubleExact(m: Num, n: Num)
    ensures CompareDouble(m as real, n as real) <==> m == n
  {
    var a, b := m as real, n as real;
    var maxVal := if Abs(a) > Abs(b) then Abs(a) else Abs(b);
    assert maxVal < 1_000_000_000_000_000.0;
    assert maxVal * DBL_EPSILON < 1.0;
    if m != n {
      assert m - n >= 1 || n - m >= 1;
      assert a - b == (m - n) as real;
    }
  }

  lemma SortedHeights(ms: seq<Member>, cs: bool)
    ensures MembersHeight(SortMembers(ms, cs)) <= MembersHeight(ms)
  {
    SortPermutes(ms, MemberKey(cs));
    SameMembers(ms, SortMembers(ms, cs));
    forall i | 0 <= i < |ms| ensures Height(SortMembers(ms, cs)[i].value) <= MembersHeight(ms) {
      assert SortMembers(ms, cs)[i] in ms;
    }
    MembersHeightBound(SortMembers(ms, cs), MembersHeight(ms));
  }

  // ----- compare_json

  predicate SortedEqual(a: Json, b: Json, cs: bool)
    decreases Height(a), 0
  {
    match (a, b)
    case (Null, Null) => true
    case (False, False) => true
    case (True, True) => true
    case (Number(m), Number(n)) => ValueInt(m) == ValueInt(n) && CompareDouble(m as real, n as real)
    case (Str(s), Str(t)) => Compare(s, t) == 0
    case (Array(xs), Array(ys)) => ItemsSortedEqual(xs, ys, cs)
    case (Object(ms), Object(ns)) =>
      SortedHeights(ms, cs);
      MembersSortedEqual(SortMembers(ms, cs), SortMembers(ns, cs), cs)
    case _ => false
  }

  /** The array walk: both lists end together. */
  predicate ItemsSortedEqual(xs: seq<Json>, ys: seq<Json>, cs: bool)
    decreases ItemsHeight(xs), 1
  {
    |xs| == |ys| && forall i :: 0 <= i < |xs| ==> SortedEqual(xs[i], ys[i], cs)
  }

  /** The object walk, over sorted members. */
  predicate MembersSortedEqual(x: seq<Member>, y: seq<Member>, cs: bool)
    decreases MembersHeight(x), 1
  {
    && |x| == |y|
    && forall i :: 0 <= i < |x| ==>
         && Compare(Key(x[i].key, cs), Key(y[i].key, cs)) == 0
         && SortedEqual(x[i].value, y[i].value, cs)
  }

  lemma SortedDistinct(ms: seq<Member>, cs: bool)
    requires Distinct(Object(ms), cs)
    ensures Distinct(Object(SortMembers(ms, cs)), cs)
  {
    SortMembersCorrect(ms, cs);
    forall i | 0 <= i < |ms| ensures Distinct(SortMembers(ms, cs)[i].value, cs) {
      assert SortMembers(ms, cs)[i] in ms;
    }
  }

  function Keys(ms: seq<Member>, cs: bool): (r: seq<string>)
    ensures |r| == |ms|
    ensures forall i :: 0 <= i < |ms| ==> r[i] == Key(ms[i].key, cs)
  {
    seq(|ms|, i requires 0 <= i < |ms| => Key(ms[i].key, cs))
  }

  ghost predicate StrictlyIncreasing(s: seq<string>) {
    forall i, j :: 0 <= i < j < |s| ==> Less(s[i], s[j])
  }

  lemma {:induction false} IncreasingHead(x: seq<string>, y: seq<string>)
    requires StrictlyIncreasing(x) && StrictlyIncreasing(y) && x != [] && y != []
    requires x[0] in y && y[0] in x
    ensures x[0] == y[0]
  {
    var j :| 0 <= j < |y| && y[j] == x[0];
    var i :| 0 <= i < |x| && x[i] == y[0];
    Trichotomy(x[0], y[0]);
  }

  /** A set of keys has one strictly increasing listing. */
  lemma {:induction false} IncreasingUnique(x: seq<string>, y: seq<string>)
    requires StrictlyIncreasing(x) && StrictlyIncreasing(y)
    requires forall k :: k in x <==> k in y
    ensures x == y
  {
    assert y != [] ==> y[0] in x;
    assert x != [] ==> x[0] in y;
    if x == [] {
    } else {
      IncreasingHead(x, y);
      var xs, ys := x[1..], y[1..];
      assert x == [x[0]] + xs && y == [y[0]] + ys;
      Trichotomy(x[0], x[0]);
      assert x[0] !in xs && y[0] !in ys;
      forall k ensures k in xs <==> k in ys {
        assert k in x <==> k == x[0] || k in xs;
        assert k in y <==> k == y[0] || k in ys;
      }
      IncreasingUnique(xs, ys);
    }
  }

  lemma DomainIsKeys(x: seq<Member>, cs: bool)
    ensures forall k :: k in MembersMeaning(x, cs) <==> k in Keys(x, cs)
  {
    MeaningKeys(x, cs);
    forall k ensures k in MembersMeaning(x, cs) <==> k in Keys(x, cs) {
      if i :| 0 <= i < |x| && Key(x[i].key, cs) == k {
        assert Keys(x, cs)[i] == k;
      }
    }
  }

  /** Equal meanings of increasing lists: the lists agree place by place. */
  lemma EqualMeaningZip(x: seq<Member>, y: seq<Member>, cs: bool)
    requires Increasing(x, cs) && Increasing(y, cs) && DistinctKeys(x, cs) && DistinctKeys(y, cs)
    ensures MembersMeaning(x, cs) == MembersMeaning(y, cs) <==>
            |x| == |y| && forall i :: 0 <= i < |x| ==>
                            Key(x[i].key, cs) == Key(y[i].key, cs) && Meaning(x[i].value, cs) == Meaning(y[i].value, cs)
  {
    var mx, my := MembersMeaning(x, cs), MembersMeaning(y, cs);
    if mx == my {
      DomainIsKeys(x, cs);
      DomainIsKeys(y, cs);
      IncreasingUnique(Keys(x, cs), Keys(y, cs));
      assert |x| == |y|;
      forall i | 0 <= i < |x|
        ensures Key(x[i].key, cs) == Key(y[i].key, cs) && Meaning(x[i].value, cs) == Meaning(y[i].value, cs)
      {
        assert Keys(x, cs)[i] == Keys(y, cs)[i];
        MeaningAt(x, i, cs);
        MeaningAt(y, i, cs);
      }
    }
    if |x| == |y| && forall i :: 0 <= i < |x| ==>
         Key(x[i].key, cs) == Key(y[i].key, cs) && Meaning(x[i].value, cs) == Meaning(y[i].value, cs) {
      ZipMeaning(x, y, cs);
    }
  }

  lemma {:induction false} ZipMeaning(x: seq<Member>, y: seq<Member>, cs: bool)
    requires |x| == |y|
    requires forall i :: 0 <= i < |x| ==>
               Key(x[i].key, cs) == Key(y[i].key, cs) && Meaning(x[i].value, cs) == Meaning(y[i].value, cs)
    ensures MembersMeaning(x, cs) == MembersMeaning(y, cs)
  {
    if x != [] {
      ZipMeaning(x[1..], y[1..], cs);
    }
  }

  /** `compare_json` decides equality up to member order. */
  lemma {:induction false} SortedEqualIsMeaning(a: Json, b: Json, cs: bool)
    requires Distinct(a, cs) && Distinct(b, cs)
    ensures SortedEqual(a, b, cs) <==> Meaning(a, cs) == Meaning(b, cs)
    decreases Height(a), 0
  {
    match (a, b)
    case (Number(m), Number(n)) =>
      CompareDoubleExact(m, n);
    case (Str(s), Str(t)) =>
      CompareZero(s, t);
    case (Array(xs), Array(ys)) =>
      ItemsSortedEqualIsMeaning(xs, ys, cs);
    case (Object(ms), Object(ns)) =>
      SortedHeights(ms, cs);
      SortMembersCorrect(ms, cs);
      SortMembersCorrect(ns, cs);
      SortedDistinct(ms, cs);
      SortedDistinct(ns, cs);
      MembersSortedEqualIsMeaning(SortMembers(ms, cs), SortMembers(ns, cs), cs);
    case _ =>
  }

  lemma {:induction false} ItemsSortedEqualIsMeaning(xs: seq<Json>, ys: seq<Json>, cs: bool)
    requires Distinct(Array(xs), cs) && Distinct(Array(ys), cs)
    ensures ItemsSortedEqual(xs, ys, cs) <==> Meanings(xs, cs) == Meanings(ys, cs)
    decreases ItemsHeight(xs), 1
  {
    EqualMeanings(xs, ys, cs);
    forall i | 0 <= i < |xs| && i < |ys|
      ensures SortedEqual(xs[i], ys[i], cs) <==> Meaning(xs[i], cs) == Meaning(ys[i], cs)
    {
      SortedEqualIsMeaning(xs[i], ys[i], cs);
    }
  }

  lemma {:induction false} MembersSortedEqualIsMeaning(x: seq<Member>, y: seq<Member>, cs: bool)
    requires Increasing(x, cs) && Increasing(y, cs)
    requires Distinct(Object(x), cs) && Distinct(Object(y), cs)
    ensures MembersSortedEqual(x, y, cs) <==> MembersMeaning(x, cs) == MembersMeaning(y, cs)
    decreases MembersHeight(x), 1
  {
    EqualMeaningZip(x, y, cs);
    forall i | 0 <= i < |x| && i < |y|
      ensures SortedEqual(x[i].value, y[i].value, cs) <==> Meaning(x[i].value, cs) == Meaning(y[i].value, cs)
      ensures Compare(Key(x[i].key, cs), Key(y[i].key, cs)) == 0 <==> Key(x[i].key, cs) == Key(y[i].key, cs)
    {
      SortedEqualIsMeaning(x[i].value, y[i].value, cs);
      CompareZero(Key(x[i].key, cs), Key(y[i].key, cs));
    }
  }

  // ----- cJSON_Compare

  /** `cJSON_Compare` on two separate items. */
  predicate LookupEqual(a: Json, b: Json, cs: bool)
    decreases Height(a) + Height(b)
  {
    match (a, b)
    case (Null, Null) => true
    case (False, False) => true
    case (True, True) => true
    case (Number(m), Number(n)) => CompareDouble(m as real, n as real)
    case (Str(s), Str(t)) => Compare(s, t) == 0
    case (Array(xs), Array(ys)) =>
      ItemsLookupEqual(xs, ys, cs)
    case (Object(ms), Object(ns)) =>
      LookupCovers(ms, ns, cs) && LookupCovers(ns, ms, cs)
    case _ => false
  }

  predicate ItemsLookupEqual(xs: seq<Json>, ys: seq<Json>, cs: bool)
    decreases ItemsHeight(xs) + ItemsHeight(ys) + 1
  {
    |xs| == |ys| && forall i :: 0 <= i < |xs| ==> LookupEqual(xs[i], ys[i], cs)
  }

  /** One of the two loops over object members. */
  predicate LookupCovers(ms: seq<Member>, ns: seq<Member>, cs: bool)
    decreases MembersHeight(ms) + MembersHeight(ns) + 1
  {
    forall i :: 0 <= i < |ms| ==>
      var j := Find(ns, ms[i].key, cs);
      j < |ns| && LookupEqual(ms[i].value, ns[j].value, cs)
  }

  /** `cJSON_Compare`: an item equals itself, whatever it holds. Below the root no two items met are the same. */
  predicate Compared(a: Json, b: Json, same: bool, cs: bool) {
    same || LookupEqual(a, b, cs)
  }

  ghost predicate Submap(m: map<string, Value>, n: map<string, Value>) {
    forall k :: k in m ==> k in n && m[k] == n[k]
  }

  /** `cJSON_Compare` decides equality up to member order. */
  lemma {:induction false} LookupEqualIsMeaning(a: Json, b: Json, cs: bool)
    requires Distinct(a, cs) && Distinct(b, cs)
    ensures LookupEqual(a, b, cs) <==> Meaning(a, cs) == Meaning(b, cs)
    decreases Height(a) + Height(b)
  {
    match (a, b)
    case (Number(m), Number(n)) =>
      CompareDoubleExact(m, n);
    case (Str(s), Str(t)) =>
      CompareZero(s, t);
    case (Array(xs), Array(ys)) =>
      ItemsLookupEqualIsMeaning(xs, ys, cs);
    case (Object(ms), Object(ns)) =>
      LookupCoversIsSubmap(ms, ns, cs);
      LookupCoversIsSubmap(ns, ms, cs);
      var m, n := MembersMeaning(ms, cs), MembersMeaning(ns, cs);
      if Submap(m, n) && Submap(n, m) {
        assert m == n;
      }
    case _ =>
  }

  lemma {:induction false} ItemsLookupEqualIsMeaning(xs: seq<Json>, ys: seq<Json>, cs: bool)
    requires Distinct(Array(xs), cs) && Distinct(Array(ys), cs)
    ensures ItemsLookupEqual(xs, ys, cs) <==> Meanings(xs, cs) == Meanings(ys, cs)
    decreases ItemsHeight(xs) + ItemsHeight(ys) + 1
  {
    EqualMeanings(xs, ys, cs);
    forall i | 0 <= i < |xs| && i < |ys|
      ensures LookupEqual(xs[i], ys[i], cs) <==> Meaning(xs[i], cs) == Meaning(ys[i], cs)
    {
      LookupEqualIsMeaning(xs[i], ys[i], cs);
    }
  }

  /** One loop: all members of `ms` are found, with the same meaning, in `ns`. */
  lemma {:induction false} LookupCoversIsSubmap(ms: seq<Member>, ns: seq<Member>, cs: bool)
    requires Distinct(Object(ms), cs) && Distinct(Object(ns), cs)
    ensures LookupCovers(ms, ns, cs) <==> Submap(MembersMeaning(ms, cs), MembersMeaning(ns, cs))
    decreases MembersHeight(ms) + MembersHeight(ns) + 1
  {
    var m, n := MembersMeaning(ms, cs), MembersMeaning(ns, cs);
    if LookupCovers(ms, ns, cs) {
      MeaningKeys(ms, cs);
      forall k | k in m ensures k in n && m[k] == n[k] {
        var i :| 0 <= i < |ms| && Key(ms[i].key, cs) == k;
        FoundAgrees(ms, ns, i, cs);
      }
    }
    if Submap(m, n) {
      forall i | 0 <= i < |ms|
        ensures var j := Find(ns, ms[i].key, cs); j < |ns| && LookupEqual(ms[i].value, ns[j].value, cs)
      {
        MeaningAt(ms, i, cs);
        FoundAgrees(ms, ns, i, cs);
      }
    }
  }

  lemma {:induction false} FoundAgrees(ms: seq<Member>, ns: seq<Member>, i: nat, cs: bool)
    requires Distinct(Object(ms), cs) && Distinct(Object(ns), cs) && i < |ms|
    ensures var m, n, k := MembersMeaning(ms, cs), MembersMeaning(ns, cs), Key(ms[i].key, cs);
            var j := Find(ns, ms[i].key, cs);
            && k in m
            && (k in n <==> j < |ns|)
            && (j < |ns| ==> (LookupEqual(ms[i].value, ns[j].value, cs) <==> m[k] == n[k]))
    decreases MembersHeight(ms) + MembersHeight(ns) + 1, 0
  {
    var j := Find(ns, ms[i].key, cs);
    MeaningAt(ms, i, cs);
    MeaningIsLookup(ns, ms[i].key, cs);
    if j < |ns| {
      LookupEqualIsMeaning(ms[i].value, ns[j].value, cs);
    }
  }

  /** The fast comparison refines the quadratic one. */
  lemma ComparisonsAgree(a: Json, b: Json, cs: bool)
    requires Distinct(a, cs) && Distinct(b, cs)
    ensures SortedEqual(a, b, cs) <==> LookupEqual(a, b, cs)
  {
    SortedEqualIsMeaning(a, b, cs);
    LookupEqualIsMeaning(a, b, cs);
  }

  /** Hence both are equivalence relations on such trees. */
  lemma ComparisonIsEquivalence(a: Json, b: Json, c: Json, cs: bool)
    requires Distinct(a, cs) && Distinct(b, cs) && Distinct(c, cs)
    ensures SortedEqual(a, a, cs)
    ensures SortedEqual(a, b, cs) ==> SortedEqual(b, a, cs)
    ensures SortedEqual(a, b, cs) && SortedEqual(b, c, cs) ==> SortedEqual(a, c, cs)
    ensures LookupEqual(a, a, cs)
    ensures LookupEqual(a, b, cs) ==> LookupEqual(b, a, cs)
    ensures LookupEqual(a, b, cs) && LookupEqual(b, c, cs) ==> LookupEqual(a, c, cs)
  {
    ComparisonsAgree(a, a, cs);
    ComparisonsAgree(a, b, cs);
    ComparisonsAgree(b, a, cs);
    ComparisonsAgree(b, c, cs);
    ComparisonsAgree(a, c, cs);
    SortedEqualIsMeaning(a, a, cs);
    SortedEqualIsMeaning(a, b, cs);
    SortedEqualIsMeaning(b, a, cs);
    SortedEqualIsMeaning(b, c, cs);
    SortedEqualIsMeaning(a, c, cs);
  }

  /** With a repeated key the two can disagree. */
  lemma ComparisonsDisagreeOnRepeatedKeys()
    ensures exists a, b :: LookupEqual(a, b, true) && !SortedEqual(a, b, true)
  {
    var a := Object([Member("k", Null)]);
    var b := Object([Member("k", Null), Member("k", Null)]);
    assert LookupEqual(a, b, true);
    assert !SortedEqual(a, b, true);
  }
}
