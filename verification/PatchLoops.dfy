/**
 The loops of the comparison and diff code: lists walked side by side, patches appended to an array.
 */
module PatchLoops {
  import opened CString
  import opened Json
  import opened Sorting
  import opened Comparison
  import opened SortEffects
  import opened Pointer
  import opened Patch
  import opened CreateEffects

  // ----- compare_json

  /** `compare_json`: the answer, and both trees as the comparison leaves them. */
  method CompareJson(a: Json, b: Json, cs: bool) returns (w: Walk)
    ensures w == Effect(a, b, cs) && (w.same <==> SortedEqual(a, b, cs))
    decreases Height(a), 0
  {
    EffectAnswers(a, b, cs);
    match (a, b)
    case (Array(xs), Array(ys)) =>
      var same, l, r := CompareItems(xs, ys, cs);
      w := Walk(same, Array(l), Array(r));
    case (Object(ms), Object(ns)) =>
      SortedHeights(ms, cs);
      var same, l, r := CompareMembers(SortMembers(ms, cs), SortMembers(ns, cs), cs);
      w := Walk(same, Object(l), Object(r));
    case (Number(m), Number(n)) =>
      w := Walk(ValueInt(m) == ValueInt(n) && CompareDouble(m as real, n as real), a, b);
    case (Str(s), Str(t)) => w := Walk(Compare(s, t) == 0, a, b);
    case _ => w := Walk((a.Null? && b.Null?) || (a.False? && b.False?) || (a.True? && b.True?), a, b);
  }

  /** The array walk. */
  method CompareItems(xs: seq<Json>, ys: seq<Json>, cs: bool) returns (same: bool, l: seq<Json>, r: seq<Json>)
    ensures (same, l, r) == EffectItems(xs, ys, cs)
    decreases ItemsHeight(xs), 1
  {
    var i := 0;
    l, r := [], [];
    ItemsJoined(l, r, EffectItems(xs[0..], ys[0..], cs));
    assert xs[0..] == xs && ys[0..] == ys;
    while i < |xs| && i < |ys|
      invariant 0 <= i <= |xs| && i <= |ys|
      invariant JoinItems(l, r, EffectItems(xs[i..], ys[i..], cs)) == EffectItems(xs, ys, cs)
    {
      ItemsStep(xs, ys, i, cs, l, r);
      var w := CompareJson(xs[i], ys[i], cs);
      l, r := l + [w.left], r + [w.right];
      i := i + 1;
      if !w.same {
        return false, l + xs[i..], r + ys[i..];
      }
    }
    same := !(i < |xs| || i < |ys|);
    l, r := l + xs[i..], r + ys[i..];
  }

  function JoinItems<T>(l: seq<T>, r: seq<T>, e: (bool, seq<T>, seq<T>)): (bool, seq<T>, seq<T>) {
    (e.0, l + e.1, r + e.2)
  }

  lemma ItemsJoined<T>(l: seq<T>, r: seq<T>, e: (bool, seq<T>, seq<T>))
    requires l == [] && r == []
    ensures JoinItems(l, r, e) == e
  {
    assert [] + e.1 == e.1 && [] + e.2 == e.2;
  }

  lemma JoinOne<T>(l: seq<T>, r: seq<T>, a: T, b: T, e: (bool, seq<T>, seq<T>))
    ensures JoinItems(l, r, (e.0, [a] + e.1, [b] + e.2)) == JoinItems(l + [a], r + [b], e)
  {
    assert l + ([a] + e.1) == l + [a] + e.1 && r + ([b] + e.2) == r + [b] + e.2;
  }

  lemma ItemsStep(xs: seq<Json>, ys: seq<Json>, i: nat, cs: bool, l: seq<Json>, r: seq<Json>)
    requires i < |xs| && i < |ys|
    ensures var e := Effect(xs[i], ys[i], cs);
      JoinItems(l, r, EffectItems(xs[i..], ys[i..], cs)) ==
      JoinItems(l + [e.left], r + [e.right],
                if e.same then EffectItems(xs[i + 1..], ys[i + 1..], cs) else (false, xs[i + 1..], ys[i + 1..]))
  {
    assert xs[i..][1..] == xs[i + 1..] && ys[i..][1..] == ys[i + 1..];
    var e := Effect(xs[i], ys[i], cs);
    JoinOne(l, r, e.left, e.right,
            if e.same then EffectItems(xs[i + 1..], ys[i + 1..], cs) else (false, xs[i + 1..], ys[i + 1..]));
  }

  /** The walk over sorted members. */
  method CompareMembers(x: seq<Member>, y: seq<Member>, cs: bool) returns (same: bool, l: seq<Member>, r: seq<Member>)
    ensures (same, l, r) == EffectMembers(x, y, cs)
    decreases MembersHeight(x), 1
  {
    var i := 0;
    l, r := [], [];
    ItemsJoined(l, r, EffectMembers(x[0..], y[0..], cs));
    assert x[0..] == x && y[0..] == y;
    while i < |x| && i < |y|
      invariant 0 <= i <= |x| && i <= |y|
      invariant JoinItems(l, r, EffectMembers(x[i..], y[i..], cs)) == EffectMembers(x, y, cs)
    {
      MembersStep(x, y, i, cs, l, r);
      if Compare(Key(x[i].key, cs), Key(y[i].key, cs)) != 0 {
        return false, l + x[i..], r + y[i..];
      }
      var w := CompareJson(x[i].value, y[i].value, cs);
      l, r := l + [Member(x[i].key, w.left)], r + [Member(y[i].key, w.right)];
      i := i + 1;
      if !w.same {
        return false, l + x[i..], r + y[i..];
      }
    }
    same := !(i < |x| || i < |y|);
    l, r := l + x[i..], r + y[i..];
  }

  lemma MembersStep(x: seq<Member>, y: seq<Member>, i: nat, cs: bool, l: seq<Member>, r: seq<Member>)
    requires i < |x| && i < |y|
    ensures Compare(Key(x[i].key, cs), Key(y[i].key, cs)) != 0 ==>
      JoinItems(l, r, EffectMembers(x[i..], y[i..], cs)) == (false, l + x[i..], r + y[i..])
    ensures Compare(Key(x[i].key, cs), Key(y[i].key, cs)) == 0 ==>
      var e := Effect(x[i].value, y[i].value, cs);
      JoinItems(l, r, EffectMembers(x[i..], y[i..], cs)) ==
      JoinItems(l + [Member(x[i].key, e.left)], r + [Member(y[i].key, e.right)],
                if e.same then EffectMembers(x[i + 1..], y[i + 1..], cs) else (false, x[i + 1..], y[i + 1..]))
  {
    assert x[i..][1..] == x[i + 1..] && y[i..][1..] == y[i + 1..];
    var e := Effect(x[i].value, y[i].value, cs);
    JoinOne(l, r, Member(x[i].key, e.left), Member(y[i].key, e.right),
            if e.same then EffectMembers(x[i + 1..], y[i + 1..], cs) else (false, x[i + 1..], y[i + 1..]));
  }

  // ----- cJSON_Compare

  /** `cJSON_Compare` of two items, which may be one and the same. */
  method CompareAny(a: Json, b: Json, same: bool, cs: bool) returns (equal: bool)
    requires same ==> a == b
    ensures equal <==> Compared(a, b, same, cs)
  {
    if same { return true; }
    equal := CompareByLookup(a, b, cs);
  }

  /** `cJSON_Compare` of two separate items. */
  method CompareByLookup(a: Json, b: Json, cs: bool) returns (same: bool)
    ensures same <==> LookupEqual(a, b, cs)
    decreases Height(a) + Height(b)
  {
    match (a, b)
    case (Number(m), Number(n)) => same := CompareDouble(m as real, n as real);
    case (Str(s), Str(t)) => same := Compare(s, t) == 0;
    case (Array(xs), Array(ys)) => same := CompareElements(xs, ys, cs);
    case (Object(ms), Object(ns)) =>
      same := LookUpAll(ms, ns, cs);
      if same {
        same := LookUpAll(ns, ms, cs);
      }
    case _ => same := (a.Null? && b.Null?) || (a.False? && b.False?) || (a.True? && b.True?);
  }

  method CompareElements(xs: seq<Json>, ys: seq<Json>, cs: bool) returns (same: bool)
    ensures same <==> ItemsLookupEqual(xs, ys, cs)
    decreases ItemsHeight(xs) + ItemsHeight(ys) + 1
  {
    var i := 0;
    while i < |xs| && i < |ys|
      invariant 0 <= i <= |xs| && i <= |ys|
      invariant forall k :: 0 <= k < i ==> LookupEqual(xs[k], ys[k], cs)
    {
      var identical := CompareByLookup(xs[i], ys[i], cs);
      if !identical { return false; }
      i := i + 1;
    }
    same := !(i < |xs| || i < |ys|);
  }

  /** One of the two loops over members. */
  method LookUpAll(ms: seq<Member>, ns: seq<Member>, cs: bool) returns (same: bool)
    ensures same <==> LookupCovers(ms, ns, cs)
    decreases MembersHeight(ms) + MembersHeight(ns) + 1
  {
    for i := 0 to |ms|
      invariant forall k :: 0 <= k < i ==>
        Find(ns, ms[k].key, cs) < |ns| && LookupEqual(ms[k].value, ns[Find(ns, ms[k].key, cs)].value, cs)
    {
      var j := Find(ns, ms[i].key, cs);
      if j == |ns| { return false; }
      var identical := CompareByLookup(ms[i].value, ns[j].value, cs);
      if !identical { return false; }
    }
    same := true;
  }

  // ----- create_patches

  lemma ComposeConcat(a: seq<Edit>, b: seq<Edit>)
    ensures ComposePatches(a + b) == ComposePatches(a) + ComposePatches(b)
  {
    var l, r := ComposePatches(a + b), ComposePatches(a) + ComposePatches(b);
    forall i | 0 <= i < |l| ensures l[i] == r[i] {
      assert l[i] == ComposePatch((a + b)[i]);
    }
  }

  lemma ComposeNext(done: seq<Json>, a: seq<Edit>, b: seq<Edit>)
    ensures done + ComposePatches(a + b) == done + ComposePatches(a) + ComposePatches(b)
  {
    ComposeConcat(a, b);
  }

  /** The array that patches are appended to. */
  class PatchArray {
    var patches: seq<Json>

    constructor ()
      ensures patches == []
    {
      patches := [];
    }

    /** `compose_patch`. */
    method Compose(op: Op, path: string, suffix: Option<string>, value: Option<Json>)
      modifies this
      ensures var full := if suffix.None? then path else path + "/" + Encode(suffix.value);
              patches == old(patches) + ComposePatches([Edit(op, full, value)])
    {
      var full := if suffix.None? then path else path + "/" + Encode(suffix.value);
      patches := patches + [ComposePatch(Edit(op, full, value))];
      assert [Edit(op, full, value)][1..] == [];
    }

    /** One patch of those that are left to make. */
    method ComposeStep(op: Op, path: string, suffix: string, value: Option<Json>,
                       ghost left: seq<Edit>, ghost more: seq<Edit>, ghost goal: seq<Json>)
      requires left == [Edit(op, path + "/" + Encode(suffix), value)] + more
      requires patches + ComposePatches(left) == goal
      modifies this
      ensures patches + ComposePatches(more) == goal
    {
      ComposeNext(patches, [Edit(op, path + "/" + Encode(suffix), value)], more);
      Compose(op, path, Some(suffix), value);
    }

    /** The patches for a child, of those that are left to make. */
    method CreateStep(path: string, from: Json, to: Json, cs: bool,
                      ghost left: seq<Edit>, ghost more: seq<Edit>, ghost goal: seq<Json>)
      returns (f: Json, t: Json)
      requires left == CreatePatches(path, from, to, cs) + more
      requires patches + ComposePatches(left) == goal
      modifies this
      ensures patches + ComposePatches(more) == goal
      ensures (f, t) == After(from, to, cs)
      decreases Height(from), 2, 0
    {
      ComposeNext(patches, CreatePatches(path, from, to, cs), more);
      f, t := Create(path, from, to, cs);
    }

    /** `create_patches`: the patches are appended, and both trees are left sorted where it walked. */
    method Create(path: string, from: Json, to: Json, cs: bool) returns (f: Json, t: Json)
      modifies this
      ensures patches == old(patches) + ComposePatches(CreatePatches(path, from, to, cs))
      ensures (f, t) == After(from, to, cs)
      decreases Height(from), 1, 0
    {
      f, t := from, to;
      if Differ(from, to) {
        Compose(Replace, path, None, Some(to));
      } else if from.Array? {
        var l, r := CreateForArray(path, from.items, to.items, cs);
        f, t := Array(l), Array(r);
      } else if from.Object? {
        SortedHeights(from.members, cs);
        var l, r := CreateForObject(path, SortMembers(from.members, cs), SortMembers(to.members, cs), cs);
        f, t := Object(l), Object(r);
      }
    }

    /** The three loops over array elements. */
    method CreateForArray(path: string, fs: seq<Json>, ts: seq<Json>, cs: bool) returns (l: seq<Json>, r: seq<Json>)
      modifies this
      ensures patches == old(patches) + ComposePatches(ArrayPatches(path, 0, fs, ts, cs))
      ensures (l, r) == AfterItems(fs, ts, cs)
      decreases ItemsHeight(fs) + 1, 0, 1
    {
      ghost var goal := patches + ComposePatches(ArrayPatches(path, 0, fs, ts, cs));
      var index;
      index, l, r := CreateForBoth(path, fs, ts, cs, goal);
      l, r := l + fs[index..], r + ts[index..];
      if index < |fs| {
        RemoveRest(path, index, fs, ts, cs, goal);
      } else {
        AddRest(path, index, fs, ts, cs, goal);
      }
    }

    /** Elements that exist in both arrays. */
    method CreateForBoth(path: string, fs: seq<Json>, ts: seq<Json>, cs: bool, ghost goal: seq<Json>)
      returns (index: nat, l: seq<Json>, r: seq<Json>)
      requires patches + ComposePatches(ArrayPatches(path, 0, fs, ts, cs)) == goal
      modifies this
      ensures index == if |fs| < |ts| then |fs| else |ts|
      ensures patches + ComposePatches(ArrayPatches(path, index, fs[index..], ts[index..], cs)) == goal
      ensures (l + fs[index..], r + ts[index..]) == AfterItems(fs, ts, cs)
      decreases ItemsHeight(fs) + 1, 0, 0
    {
      index, l, r := 0, [], [];
      ghost var whole := AfterItems(fs, ts, cs);
      ghost var left, rest := ArrayPatches(path, 0, fs, ts, cs), whole;
      JoinNothing(whole);
      assert fs[0..] == fs && ts[0..] == ts;
      while index < |fs| && index < |ts|
        invariant 0 <= index <= |fs| && index <= |ts|
        invariant left == ArrayPatches(path, index, fs[index..], ts[index..], cs)
        invariant rest == AfterItems(fs[index..], ts[index..], cs)
        invariant patches + ComposePatches(left) == goal && Join(l, r, rest) == whole
      {
        l, r, left, rest := BothRound(path, index, fs, ts, cs, goal, l, r, left, rest);
        index := index + 1;
      }
      AfterItemsEnd(fs[index..], ts[index..], cs);
    }

    method BothRound(path: string, index: nat, fs: seq<Json>, ts: seq<Json>, cs: bool, ghost goal: seq<Json>,
                     before: seq<Json>, after: seq<Json>, ghost left: seq<Edit>, ghost rest: (seq<Json>, seq<Json>))
      returns (l: seq<Json>, r: seq<Json>, ghost more: seq<Edit>, ghost others: (seq<Json>, seq<Json>))
      requires index < |fs| && index < |ts|
      requires left == ArrayPatches(path, index, fs[index..], ts[index..], cs) && patches + ComposePatches(left) == goal
      requires rest == AfterItems(fs[index..], ts[index..], cs)
      modifies this
      ensures more == ArrayPatches(path, index + 1, fs[index + 1..], ts[index + 1..], cs)
      ensures others == AfterItems(fs[index + 1..], ts[index + 1..], cs)
      ensures patches + ComposePatches(more) == goal && Join(l, r, others) == Join(before, after, rest)
      decreases Height(fs[index]), 3, 0
    {
      BothStep(path, index, fs, ts, cs);
      AfterItemsStep(fs, ts, index, cs, before, after);
      more := ArrayPatches(path, index + 1, fs[index + 1..], ts[index + 1..], cs);
      others := AfterItems(fs[index + 1..], ts[index + 1..], cs);
      var f, t := CreateStep(path + "/" + Decimal(index), fs[index], ts[index], cs, left, more, goal);
      l, r := before + [f], after + [t];
    }

    /** Elements that are left over in `from`. */
    method RemoveRest(path: string, index: nat, fs: seq<Json>, ghost ts: seq<Json>, cs: bool, ghost goal: seq<Json>)
      requires index <= |fs| && index == |ts|
      requires patches + ComposePatches(ArrayPatches(path, index, fs[index..], ts[index..], cs)) == goal
      modifies this
      ensures patches == goal
    {
      var f := index;
      ghost var left := ArrayPatches(path, index, fs[index..], [], cs);
      while f < |fs|
        invariant index <= f <= |fs|
        invariant left == ArrayPatches(path, index, fs[f..], [], cs) && patches + ComposePatches(left) == goal
      {
        ghost var more := RemoveStep(path, index, fs, f, cs, left);
        ComposeStep(Remove, path, Decimal(index), None, left, more, goal);
        f, left := f + 1, more;
      }
      NothingLeft(patches);
    }

    /** Elements that are new in `to`. */
    method AddRest(path: string, index: nat, ghost fs: seq<Json>, ts: seq<Json>, cs: bool, ghost goal: seq<Json>)
      requires index <= |ts| && index == |fs|
      requires patches + ComposePatches(ArrayPatches(path, index, fs[index..], ts[index..], cs)) == goal
      modifies this
      ensures patches == goal
    {
      var t := index;
      ghost var left := ArrayPatches(path, index, [], ts[index..], cs);
      while t < |ts|
        invariant index <= t <= |ts|
        invariant left == ArrayPatches(path, t, [], ts[t..], cs) && patches + ComposePatches(left) == goal
      {
        ghost var more := AddStep(path, ts, t, cs, left);
        ComposeStep(Add, path, "-", Some(ts[t]), left, more, goal);
        t, left := t + 1, more;
      }
      NothingLeft(patches);
    }

    /** The merge of the sorted members. */
    method CreateForObject(path: string, fs: seq<Member>, ts: seq<Member>, cs: bool)
      returns (l: seq<Member>, r: seq<Member>)
      modifies this
      ensures patches == old(patches) + ComposePatches(ObjectPatches(path, fs, ts, cs))
      ensures (l, r) == AfterMembers(fs, ts, cs)
      decreases MembersHeight(fs) + 1, 0, 1
    {
      var f, t := 0, 0;
      ghost var goal := patches + ComposePatches(ObjectPatches(path, fs, ts, cs));
      l, r := [], [];
      JoinNothing(AfterMembers(fs, ts, cs));
      assert fs[0..] == fs && ts[0..] == ts;
      while f < |fs| || t < |ts|
        invariant 0 <= f <= |fs| && 0 <= t <= |ts|
        invariant patches + ComposePatches(ObjectPatches(path, fs[f..], ts[t..], cs)) == goal
        invariant Join(l, r, AfterMembers(fs[f..], ts[t..], cs)) == AfterMembers(fs, ts, cs)
        decreases |fs| - f + |ts| - t
      {
        AfterMembersStep(fs[f..], ts[t..], cs, l, r);
        assert f < |fs| ==> fs[f..][1..] == fs[f + 1..];
        assert t < |ts| ==> ts[t..][1..] == ts[t + 1..];
        var a, b;
        f, t, a, b := ObjectRound(path, fs, f, ts, t, cs, goal);
        l, r := l + a, r + b;
      }
      assert l + [] == l && r + [] == r;
    }

    /** One round of the merge. */
    method ObjectRound(path: string, fs: seq<Member>, f: nat, ts: seq<Member>, t: nat, cs: bool, ghost goal: seq<Json>)
      returns (f': nat, t': nat, l: seq<Member>, r: seq<Member>)
      requires f <= |fs| && t <= |ts| && (f < |fs| || t < |ts|)
      requires patches + ComposePatches(ObjectPatches(path, fs[f..], ts[t..], cs)) == goal
      modifies this
      ensures f' == (if KeyDiff(fs[f..], ts[t..], cs) <= 0 then f + 1 else f) <= |fs|
      ensures t' == (if KeyDiff(fs[f..], ts[t..], cs) >= 0 then t + 1 else t) <= |ts|
      ensures (l, r) == RoundOf(fs[f..], ts[t..], cs)
      ensures patches + ComposePatches(ObjectPatches(path, fs[f'..], ts[t'..], cs)) == goal
      decreases MembersHeight(fs) + 1, 0, 0
    {
      ObjectStep(path, fs, f, ts, t, cs);
      var diff := if f == |fs| then 1 else if t == |ts| then -1 else Compare(Key(fs[f].key, cs), Key(ts[t].key, cs));
      f', t' := if diff <= 0 then f + 1 else f, if diff >= 0 then t + 1 else t;
      ghost var left, more := ObjectPatches(path, fs[f..], ts[t..], cs), ObjectPatches(path, fs[f'..], ts[t'..], cs);
      if diff == 0 {
        var x, y := CreateStep(path + "/" + Encode(fs[f].key), fs[f].value, ts[t].value, cs, left, more, goal);
        l, r := [Member(fs[f].key, x)], [Member(ts[t].key, y)];
      } else if diff < 0 {
        ComposeStep(Remove, path, fs[f].key, None, left, more, goal);
        l, r := [fs[f]], [];
      } else {
        ComposeStep(Add, path, ts[t].key, Some(ts[t].value), left, more, goal);
        l, r := [], [ts[t]];
      }
    }
  }

  lemma BothStep(path: string, i: nat, fs: seq<Json>, ts: seq<Json>, cs: bool)
    requires i < |fs| && i < |ts|
    ensures ArrayPatches(path, i, fs[i..], ts[i..], cs)
         == CreatePatches(path + "/" + Decimal(i), fs[i], ts[i], cs)
            + ArrayPatches(path, i + 1, fs[i + 1..], ts[i + 1..], cs)
  {
    assert fs[i..][1..] == fs[i + 1..] && ts[i..][1..] == ts[i + 1..];
  }

  lemma RemoveStep(path: string, index: nat, fs: seq<Json>, f: nat, cs: bool, left: seq<Edit>) returns (more: seq<Edit>)
    requires f < |fs| && left == ArrayPatches(path, index, fs[f..], [], cs)
    ensures more == ArrayPatches(path, index, fs[f + 1..], [], cs)
    ensures left == [Edit(Remove, path + "/" + Encode(Decimal(index)), None)] + more
  {
    assert fs[f..][1..] == fs[f + 1..];
    more := ArrayPatches(path, index, fs[f + 1..], [], cs);
  }

  lemma AddStep(path: string, ts: seq<Json>, t: nat, cs: bool, left: seq<Edit>) returns (more: seq<Edit>)
    requires t < |ts| && left == ArrayPatches(path, t, [], ts[t..], cs)
    ensures more == ArrayPatches(path, t + 1, [], ts[t + 1..], cs)
    ensures left == [Edit(Add, path + "/" + Encode("-"), Some(ts[t]))] + more
  {
    assert ts[t..][1..] == ts[t + 1..];
    more := ArrayPatches(path, t + 1, [], ts[t + 1..], cs);
  }

  lemma NothingLeft(patches: seq<Json>)
    ensures patches + ComposePatches([]) == patches
  {
  }

  lemma ObjectStep(path: string, fs: seq<Member>, f: nat, ts: seq<Member>, t: nat, cs: bool)
    requires f <= |fs| && t <= |ts| && (f < |fs| || t < |ts|)
    ensures var diff := KeyDiff(fs[f..], ts[t..], cs);
      ObjectPatches(path, fs[f..], ts[t..], cs) ==
        if diff == 0 then
          CreatePatches(path + "/" + Encode(fs[f].key), fs[f].value, ts[t].value, cs)
          + ObjectPatches(path, fs[f + 1..], ts[t + 1..], cs)
        else if diff < 0 then
          [Edit(Remove, path + "/" + Encode(fs[f].key), None)] + ObjectPatches(path, fs[f + 1..], ts[t..], cs)
        else
          [Edit(Add, path + "/" + Encode(ts[t].key), Some(ts[t].value))] + ObjectPatches(path, fs[f..], ts[t + 1..], cs)
  {
    assert f < |fs| ==> fs[f..][1..] == fs[f + 1..];
    assert t < |ts| ==> ts[t..][1..] == ts[t + 1..];
  }
}
