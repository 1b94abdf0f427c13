/**
 What `compare_json` leaves behind: it sorts the objects it meets, in both arguments, up to the first difference.
 The answer is that of the comparison, and with distinct keys neither argument changes its meaning.
 */
module SortEffects {
  import opened CString
  import opened Json
  import opened Sorting
  import opened Comparison

  datatype Walk = Walk(same: bool, left: Json, right: Json)

  /** The answer and both trees afterwards. */
  function Effect(a: Json, b: Json, cs: bool): Walk
    decreases Height(a), 0, 0
  {
    match (a, b)
    case (Array(xs), Array(ys)) =>
      var (same, l, r) := EffectItems(xs, ys, cs);
      Walk(same, Array(l), Array(r))
    case (Object(ms), Object(ns)) =>
      SortedHeights(ms, cs);
      var (same, l, r) := EffectMembers(SortMembers(ms, cs), SortMembers(ns, cs), cs);
      Walk(same, Object(l), Object(r))
    case _ => Walk(SortedEqual(a, b, cs), a, b)
  }

  /** The array walk stops at the first difference. */
  function EffectItems(xs: seq<Json>, ys: seq<Json>, cs: bool): (r: (bool, seq<Json>, seq<Json>))
    ensures |r.1| == |xs| && |r.2| == |ys|
    decreases ItemsHeight(xs), 1, |xs|
  {
    if xs == [] || ys == [] then (xs == [] && ys == [], xs, ys)
    else
      var e := Effect(xs[0], ys[0], cs);
      var (same, l, r) := if e.same then EffectItems(xs[1..], ys[1..], cs) else (false, xs[1..], ys[1..]);
      (same, [e.left] + l, [e.right] + r)
  }

  /** The walk over sorted members stops there too. */
  function EffectMembers(x: seq<Member>, y: seq<Member>, cs: bool): (r: (bool, seq<Member>, seq<Member>))
    ensures |r.1| == |x| && |r.2| == |y|
    decreases MembersHeight(x), 1, |x|
  {
    if x == [] || y == [] then (x == [] && y == [], x, y)
    else if Compare(Key(x[0].key, cs), Key(y[0].key, cs)) != 0 then (false, x, y)
    else
      var e := Effect(x[0].value, y[0].value, cs);
      var (same, l, r) := if e.same then EffectMembers(x[1..], y[1..], cs) else (false, x[1..], y[1..]);
      (same, [Member(x[0].key, e.left)] + l, [Member(y[0].key, e.right)] + r)
  }

  // ----- the answer

  lemma {:induction false} EffectAnswers(a: Json, b: Json, cs: bool)
    ensures Effect(a, b, cs).same == SortedEqual(a, b, cs)
    decreases Height(a), 0, 0
  {
    match (a, b)
    case (Array(xs), Array(ys)) => EffectItemsAnswers(xs, ys, cs);
    case (Object(ms), Object(ns)) =>
      SortedHeights(ms, cs);
      EffectMembersAnswers(SortMembers(ms, cs), SortMembers(ns, cs), cs);
    case _ =>
  }

  lemma {:induction false} EffectItemsAnswers(xs: seq<Json>, ys: seq<Json>, cs: bool)
    ensures EffectItems(xs, ys, cs).0 == ItemsSortedEqual(xs, ys, cs)
    decreases ItemsHeight(xs), 1, |xs|
  {
    if xs != [] && ys != [] {
      EffectAnswers(xs[0], ys[0], cs);
      EffectItemsAnswers(xs[1..], ys[1..], cs);
      ItemsCons(xs, ys, cs);
    }
  }

  lemma ItemsCons(fs: seq<Json>, ts: seq<Json>, cs: bool)
    requires fs != [] && ts != []
    ensures ItemsSortedEqual(fs, ts, cs) <==> SortedEqual(fs[0], ts[0], cs) && ItemsSortedEqual(fs[1..], ts[1..], cs)
  {
    if SortedEqual(fs[0], ts[0], cs) && ItemsSortedEqual(fs[1..], ts[1..], cs) {
      forall i | 0 <= i < |fs| ensures SortedEqual(fs[i], ts[i], cs) {
        if i > 0 { assert fs[i] == fs[1..][i - 1] && ts[i] == ts[1..][i - 1]; }
      }
    }
    if ItemsSortedEqual(fs, ts, cs) {
      forall i | 0 <= i < |fs| - 1 ensures SortedEqual(fs[1..][i], ts[1..][i], cs) {
        assert fs[1..][i] == fs[i + 1] && ts[1..][i] == ts[i + 1];
      }
    }
  }

  lemma {:induction false} EffectMembersAnswers(x: seq<Member>, y: seq<Member>, cs: bool)
    ensures EffectMembers(x, y, cs).0 == MembersSortedEqual(x, y, cs)
    decreases MembersHeight(x), 1, |x|
  {
    if x != [] && y != [] && Compare(Key(x[0].key, cs), Key(y[0].key, cs)) == 0 {
      EffectAnswers(x[0].value, y[0].value, cs);
      EffectMembersAnswers(x[1..], y[1..], cs);
      MembersCons(x, y, cs);
    }
  }

  lemma MembersCons(fs: seq<Member>, ts: seq<Member>, cs: bool)
    requires fs != [] && ts != [] && Compare(Key(fs[0].key, cs), Key(ts[0].key, cs)) == 0
    ensures MembersSortedEqual(fs, ts, cs) <==>
            SortedEqual(fs[0].value, ts[0].value, cs) && MembersSortedEqual(fs[1..], ts[1..], cs)
  {
    if SortedEqual(fs[0].value, ts[0].value, cs) && MembersSortedEqual(fs[1..], ts[1..], cs) {
      forall i | 0 <= i < |fs|
        ensures Compare(Key(fs[i].key, cs), Key(ts[i].key, cs)) == 0 && SortedEqual(fs[i].value, ts[i].value, cs)
      {
        if i > 0 { assert fs[i] == fs[1..][i - 1] && ts[i] == ts[1..][i - 1]; }
      }
    }
    if MembersSortedEqual(fs, ts, cs) {
      var f1, t1 := fs[1..], ts[1..];
      forall i | 0 <= i < |f1|
        ensures Compare(Key(f1[i].key, cs), Key(t1[i].key, cs)) == 0 && SortedEqual(f1[i].value, t1[i].value, cs)
      {
        assert f1[i] == fs[i + 1] && t1[i] == ts[i + 1];
      }
    }
  }

  // ----- the meaning

  /** The same tree up to the order of members: distinct keys and the same meaning. */
  ghost predicate Same(a: Json, b: Json, cs: bool) {
    Distinct(b, cs) && Meaning(b, cs) == Meaning(a, cs)
  }

  /** The same members in the same places, up to the order within their values. */
  ghost predicate SamePlaces(x: seq<Member>, y: seq<Member>, cs: bool) {
    |x| == |y| && forall i :: 0 <= i < |x| ==> y[i].key == x[i].key && Same(x[i].value, y[i].value, cs)
  }

  ghost predicate SameItems(xs: seq<Json>, ys: seq<Json>, cs: bool) {
    |xs| == |ys| && forall i :: 0 <= i < |xs| ==> Same(xs[i], ys[i], cs)
  }

  lemma SameArray(xs: seq<Json>, ys: seq<Json>, cs: bool)
    requires SameItems(xs, ys, cs)
    ensures Same(Array(xs), Array(ys), cs)
  {
    EqualMeanings(xs, ys, cs);
  }

  lemma SameObject(ms: seq<Member>, y: seq<Member>, cs: bool)
    requires Distinct(Object(ms), cs) && SamePlaces(SortMembers(ms, cs), y, cs)
    ensures Same(Object(ms), Object(y), cs)
  {
    var x := SortMembers(ms, cs);
    SortMembersCorrect(ms, cs);
    ZipMeaning(x, y, cs);
    forall i, j | 0 <= i < j < |y| ensures Key(y[i].key, cs) != Key(y[j].key, cs) {
      assert y[i].key == x[i].key && y[j].key == x[j].key;
    }
  }

  /** Comparing does not change what either tree means. */
  lemma {:induction false} EffectKeepsMeaning(a: Json, b: Json, cs: bool)
    requires Distinct(a, cs) && Distinct(b, cs)
    ensures Same(a, Effect(a, b, cs).left, cs) && Same(b, Effect(a, b, cs).right, cs)
    decreases Height(a), 0, 0
  {
    match (a, b)
    case (Array(xs), Array(ys)) =>
      EffectItemsKeep(xs, ys, cs);
      SameArray(xs, EffectItems(xs, ys, cs).1, cs);
      SameArray(ys, EffectItems(xs, ys, cs).2, cs);
    case (Object(ms), Object(ns)) =>
      SortedHeights(ms, cs);
      SortedDistinct(ms, cs);
      SortedDistinct(ns, cs);
      var e := EffectMembers(SortMembers(ms, cs), SortMembers(ns, cs), cs);
      EffectMembersKeep(SortMembers(ms, cs), SortMembers(ns, cs), cs);
      SameObject(ms, e.1, cs);
      SameObject(ns, e.2, cs);
    case _ =>
  }

  lemma {:induction false} EffectItemsKeep(xs: seq<Json>, ys: seq<Json>, cs: bool)
    requires Distinct(Array(xs), cs) && Distinct(Array(ys), cs)
    ensures SameItems(xs, EffectItems(xs, ys, cs).1, cs) && SameItems(ys, EffectItems(xs, ys, cs).2, cs)
    decreases ItemsHeight(xs), 1, |xs|
  {
    if xs != [] && ys != [] {
      var e := Effect(xs[0], ys[0], cs);
      var rest := if e.same then EffectItems(xs[1..], ys[1..], cs) else (false, xs[1..], ys[1..]);
      EffectKeepsMeaning(xs[0], ys[0], cs);
      EffectItemsKeep(xs[1..], ys[1..], cs);
      ConsItems(xs, e.left, rest.1, cs);
      ConsItems(ys, e.right, rest.2, cs);
    }
  }

  lemma ConsItems(xs: seq<Json>, v: Json, rest: seq<Json>, cs: bool)
    requires xs != [] && Same(xs[0], v, cs) && SameItems(xs[1..], rest, cs)
    ensures SameItems(xs, [v] + rest, cs)
  {
  }

  lemma ConsPlaces(x: seq<Member>, v: Json, rest: seq<Member>, cs: bool)
    requires x != [] && Same(x[0].value, v, cs) && SamePlaces(x[1..], rest, cs)
    ensures SamePlaces(x, [Member(x[0].key, v)] + rest, cs)
  {
  }

  lemma {:induction false} EffectMembersKeep(x: seq<Member>, y: seq<Member>, cs: bool)
    requires Distinct(Object(x), cs) && Distinct(Object(y), cs)
    ensures SamePlaces(x, EffectMembers(x, y, cs).1, cs) && SamePlaces(y, EffectMembers(x, y, cs).2, cs)
    decreases MembersHeight(x), 1, |x|
  {
    if x != [] && y != [] && Compare(Key(x[0].key, cs), Key(y[0].key, cs)) == 0 {
      var e := Effect(x[0].value, y[0].value, cs);
      var rest := if e.same then EffectMembers(x[1..], y[1..], cs) else (false, x[1..], y[1..]);
      EffectKeepsMeaning(x[0].value, y[0].value, cs);
      EffectMembersKeep(x[1..], y[1..], cs);
      ConsPlaces(x, e.left, rest.1, cs);
      ConsPlaces(y, e.right, rest.2, cs);
    }
  }
}
