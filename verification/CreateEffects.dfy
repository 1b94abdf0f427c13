/**
 What `create_patches` leaves behind: it sorts the objects it walks through, in both trees. Neither changes its
 meaning, which is why patches are applied to a fresh copy rather than to the tree they were generated from.
 */
module CreateEffects {
  import opened Json
  import opened Sorting
  import opened Comparison
  import opened SortEffects
  import opened Patch

  /** Both trees afterwards. */
  function After(f: Json, t: Json, cs: bool): (Json, Json)
    decreases Height(f), 1, 0
  {
    if Differ(f, t) then (f, t)
    else if f.Array? then
      var (l, r) := AfterItems(f.items, t.items, cs);
      (Array(l), Array(r))
    else if f.Object? then
      SortedHeights(f.members, cs);
      var (l, r) := AfterMembers(SortMembers(f.members, cs), SortMembers(t.members, cs), cs);
      (Object(l), Object(r))
    else (f, t)
  }

  /** Elements without a partner are not looked at. */
  function AfterItems(fs: seq<Json>, ts: seq<Json>, cs: bool): (seq<Json>, seq<Json>)
    decreases ItemsHeight(fs) + 1, 0, |fs|
  {
    if fs == [] || ts == [] then (fs, ts)
    else
      TailHeight(fs);
      var (f, t) := After(fs[0], ts[0], cs);
      var (l, r) := AfterItems(fs[1..], ts[1..], cs);
      ([f] + l, [t] + r)
  }

  function AfterMembers(fs: seq<Member>, ts: seq<Member>, cs: bool): (seq<Member>, seq<Member>)
    decreases MembersHeight(fs) + 1, 0, |fs| + |ts|
  {
    if fs == [] && ts == [] then ([], [])
    else
      var diff := KeyDiff(fs, ts, cs);
      if diff == 0 then
        TailMembersHeight(fs);
        var (f, t) := After(fs[0].value, ts[0].value, cs);
        var (l, r) := AfterMembers(fs[1..], ts[1..], cs);
        ([Member(fs[0].key, f)] + l, [Member(ts[0].key, t)] + r)
      else if diff < 0 then
        TailMembersHeight(fs);
        var (l, r) := AfterMembers(fs[1..], ts, cs);
        ([fs[0]] + l, r)
      else
        var (l, r) := AfterMembers(fs, ts[1..], cs);
        (l, [ts[0]] + r)
  }

  /** Generating patches does not change what either tree means. */
  lemma {:induction false} AfterKeepsMeaning(f: Json, t: Json, cs: bool)
    requires Distinct(f, cs) && Distinct(t, cs)
    ensures Same(f, After(f, t, cs).0, cs) && Same(t, After(f, t, cs).1, cs)
    decreases Height(f), 1, 0
  {
    if !Differ(f, t) {
      if f.Array? {
        AfterItemsKeep(f.items, t.items, cs);
        var e := AfterItems(f.items, t.items, cs);
        SameArray(f.items, e.0, cs);
        SameArray(t.items, e.1, cs);
      } else if f.Object? {
        SortedHeights(f.members, cs);
        SortedDistinct(f.members, cs);
        SortedDistinct(t.members, cs);
        var x, y := SortMembers(f.members, cs), SortMembers(t.members, cs);
        AfterMembersKeep(x, y, cs);
        var e := AfterMembers(x, y, cs);
        SameObject(f.members, e.0, cs);
        SameObject(t.members, e.1, cs);
      }
    }
  }

  lemma {:induction false} AfterItemsKeep(fs: seq<Json>, ts: seq<Json>, cs: bool)
    requires Distinct(Array(fs), cs) && Distinct(Array(ts), cs)
    ensures SameItems(fs, AfterItems(fs, ts, cs).0, cs) && SameItems(ts, AfterItems(fs, ts, cs).1, cs)
    decreases ItemsHeight(fs) + 1, 0, |fs|
  {
    if fs != [] && ts != [] {
      TailHeight(fs);
      var e, rest := After(fs[0], ts[0], cs), AfterItems(fs[1..], ts[1..], cs);
      AfterKeepsMeaning(fs[0], ts[0], cs);
      AfterItemsKeep(fs[1..], ts[1..], cs);
      ConsItems(fs, e.0, rest.0, cs);
      ConsItems(ts, e.1, rest.1, cs);
    }
  }

  lemma {:induction false} AfterMembersKeep(fs: seq<Member>, ts: seq<Member>, cs: bool)
    requires Distinct(Object(fs), cs) && Distinct(Object(ts), cs)
    ensures SamePlaces(fs, AfterMembers(fs, ts, cs).0, cs) && SamePlaces(ts, AfterMembers(fs, ts, cs).1, cs)
    decreases MembersHeight(fs) + 1, 0, |fs| + |ts|
  {
    if fs != [] || ts != [] {
      var diff := KeyDiff(fs, ts, cs);
      if diff == 0 {
        TailMembersHeight(fs);
        var e, rest := After(fs[0].value, ts[0].value, cs), AfterMembers(fs[1..], ts[1..], cs);
        AfterKeepsMeaning(fs[0].value, ts[0].value, cs);
        AfterMembersKeep(fs[1..], ts[1..], cs);
        ConsPlaces(fs, e.0, rest.0, cs);
        ConsPlaces(ts, e.1, rest.1, cs);
      } else if diff < 0 {
        TailMembersHeight(fs);
        AfterMembersKeep(fs[1..], ts, cs);
        ConsPlaces(fs, fs[0].value, AfterMembers(fs[1..], ts, cs).0, cs);
      } else {
        AfterMembersKeep(fs, ts[1..], cs);
        ConsPlaces(ts, ts[0].value, AfterMembers(fs, ts[1..], cs).1, cs);
      }
    }
  }

  // ----- built up from the front

  function Join<T>(l: seq<T>, r: seq<T>, e: (seq<T>, seq<T>)): (seq<T>, seq<T>) {
    (l + e.0, r + e.1)
  }

  lemma JoinNothing<T>(e: (seq<T>, seq<T>))
    ensures Join([], [], e) == e
  {
    assert [] + e.0 == e.0 && [] + e.1 == e.1;
  }

  lemma JoinMore<T>(l: seq<T>, r: seq<T>, a: seq<T>, b: seq<T>, e: (seq<T>, seq<T>))
    ensures Join(l, r, (a + e.0, b + e.1)) == Join(l + a, r + b, e)
  {
    assert l + (a + e.0) == l + a + e.0 && r + (b + e.1) == r + b + e.1;
  }

  lemma AfterItemsStep(fs: seq<Json>, ts: seq<Json>, i: nat, cs: bool, l: seq<Json>, r: seq<Json>)
    requires i < |fs| && i < |ts|
    ensures var (f, t) := After(fs[i], ts[i], cs);
      Join(l, r, AfterItems(fs[i..], ts[i..], cs)) == Join(l + [f], r + [t], AfterItems(fs[i + 1..], ts[i + 1..], cs))
  {
    assert fs[i..][1..] == fs[i + 1..] && ts[i..][1..] == ts[i + 1..];
    var e := After(fs[i], ts[i], cs);
    JoinMore(l, r, [e.0], [e.1], AfterItems(fs[i + 1..], ts[i + 1..], cs));
  }

  lemma AfterItemsEnd(fs: seq<Json>, ts: seq<Json>, cs: bool)
    requires fs == [] || ts == []
    ensures AfterItems(fs, ts, cs) == (fs, ts)
  {
  }

  /** One round of the merge: what goes to the left and to the right. */
  function RoundOf(fs: seq<Member>, ts: seq<Member>, cs: bool): (seq<Member>, seq<Member>)
    requires fs != [] || ts != []
  {
    var diff := KeyDiff(fs, ts, cs);
    if diff == 0 then
      var (f, t) := After(fs[0].value, ts[0].value, cs);
      ([Member(fs[0].key, f)], [Member(ts[0].key, t)])
    else if diff < 0 then ([fs[0]], [])
    else ([], [ts[0]])
  }

  lemma AfterMembersStep(fs: seq<Member>, ts: seq<Member>, cs: bool, l: seq<Member>, r: seq<Member>)
    requires fs != [] || ts != []
    ensures var diff, one := KeyDiff(fs, ts, cs), RoundOf(fs, ts, cs);
      Join(l, r, AfterMembers(fs, ts, cs)) ==
      Join(l + one.0, r + one.1, AfterMembers(if diff <= 0 then fs[1..] else fs, if diff >= 0 then ts[1..] else ts, cs))
  {
    var diff, one := KeyDiff(fs, ts, cs), RoundOf(fs, ts, cs);
    var rest := AfterMembers(if diff <= 0 then fs[1..] else fs, if diff >= 0 then ts[1..] else ts, cs);
    JoinMore(l, r, one.0, one.1, rest);
    assert [] + rest.0 == rest.0 && [] + rest.1 == rest.1;
  }
}
