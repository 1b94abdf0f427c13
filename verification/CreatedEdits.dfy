/**
 Which edits `create_patches` makes: one for each place where the trees part, and no other.
 */
module CreatedEdits {
  import opened CString
  import opened Json
  import opened Sorting
  import opened Comparison
  import opened Pointer
  import opened PointerDecode
  import opened Patch

  ghost predicate HasKey(ms: seq<Member>, key: string, cs: bool) {
    exists m :: m in ms && Key(m.key, cs) == Key(key, cs)
  }

  /** The edit settles a difference of the two trees, which stand at the path. */
  ghost predicate Settles(e: Edit, path: string, f: Json, t: Json, cs: bool)
    decreases f, 1
  {
    if Differ(f, t) then e == Edit(Replace, path, Some(t))
    else if f.Array? then SettlesItems(e, path, f.items, t.items, cs)
    else if f.Object? then SettlesMembers(e, path, f.members, t.members, cs)
    else false
  }

  /** In an element of both arrays, or it takes off or puts on an element at the end. */
  ghost predicate SettlesItems(e: Edit, path: string, fs: seq<Json>, ts: seq<Json>, cs: bool)
    decreases fs, 0
  {
    || (exists i :: 0 <= i < |fs| && i < |ts| && Settles(e, path + "/" + Decimal(i), fs[i], ts[i], cs))
    || (|fs| > |ts| && e == Edit(Remove, path + "/" + Decimal(|ts|), None))
    || (exists i :: |fs| <= i < |ts| && e == Edit(Add, path + "/" + "-", Some(ts[i])))
  }

  /** In the value of a key of both objects, or it removes or adds a key that only one of them has. */
  ghost predicate SettlesMembers(e: Edit, path: string, fs: seq<Member>, ts: seq<Member>, cs: bool)
    decreases fs, 0
  {
    || (exists m, n :: m in fs && n in ts && Key(m.key, cs) == Key(n.key, cs)
                       && Settles(e, path + "/" + Encode(m.key), m.value, n.value, cs))
    || (exists m :: m in fs && !HasKey(ts, m.key, cs) && e == Edit(Remove, path + "/" + Encode(m.key), None))
    || (exists n :: n in ts && !HasKey(fs, n.key, cs) && e == Edit(Add, path + "/" + Encode(n.key), Some(n.value)))
  }

  lemma {:induction false} PlainTokens(n: nat)
    ensures Encode(Decimal(n)) == Decimal(n) && Encode("-") == "-"
  {
    DecimalDigits(n);
    EncodePlain(Decimal(n));
    EncodePlain("-");
  }

  // ----- arrays

  /** The loops from an index on: what they do with the elements that are left. */
  ghost predicate SettlesRest(e: Edit, path: string, index: nat, fs: seq<Json>, ts: seq<Json>, cs: bool) {
    || (exists i :: 0 <= i < |fs| && i < |ts| && Settles(e, path + "/" + Decimal(index + i), fs[i], ts[i], cs))
    || (|fs| > |ts| && e == Edit(Remove, path + "/" + Decimal(index + |ts|), None))
    || (exists i :: |fs| <= i < |ts| && e == Edit(Add, path + "/" + "-", Some(ts[i])))
  }

  lemma {:induction false} SettlesRestBoth(e: Edit, path: string, index: nat, fs: seq<Json>, ts: seq<Json>, cs: bool)
    requires fs != [] && ts != []
    ensures SettlesRest(e, path, index, fs, ts, cs) <==>
            Settles(e, path + "/" + Decimal(index), fs[0], ts[0], cs)
            || SettlesRest(e, path, index + 1, fs[1..], ts[1..], cs)
  {
    var f, t := fs[1..], ts[1..];
    if i :| 0 <= i < |fs| && i < |ts| && Settles(e, path + "/" + Decimal(index + i), fs[i], ts[i], cs) {
      if i > 0 {
        assert index + 1 + (i - 1) == index + i;
        assert Settles(e, path + "/" + Decimal(index + 1 + (i - 1)), f[i - 1], t[i - 1], cs);
      }
    }
    if i :| |fs| <= i < |ts| && e == Edit(Add, path + "/" + "-", Some(ts[i])) {
      assert t[i - 1] == ts[i];
    }
    if Settles(e, path + "/" + Decimal(index), fs[0], ts[0], cs) {
      assert Settles(e, path + "/" + Decimal(index + 0), fs[0], ts[0], cs);
    }
    if i :| 0 <= i < |f| && i < |t| && Settles(e, path + "/" + Decimal(index + 1 + i), f[i], t[i], cs) {
      assert index + (i + 1) == index + 1 + i;
      assert Settles(e, path + "/" + Decimal(index + (i + 1)), fs[i + 1], ts[i + 1], cs);
    }
    if i :| |f| <= i < |t| && e == Edit(Add, path + "/" + "-", Some(t[i])) {
      assert ts[i + 1] == t[i];
    }
  }

  lemma {:induction false} ArrayEdits(e: Edit, path: string, index: nat, fs: seq<Json>, ts: seq<Json>, cs: bool)
    requires forall x :: x in fs ==> Distinct(x, cs)
    requires forall x :: x in ts ==> Distinct(x, cs)
    ensures e in ArrayPatches(path, index, fs, ts, cs) <==> SettlesRest(e, path, index, fs, ts, cs)
    decreases ItemsHeight(fs) + 1, 0, |fs| + |ts|
  {
    if fs != [] && ts != [] {
      TailHeight(fs);
      assert fs[0] in fs && ts[0] in ts;
      CreatedExactly(e, path + "/" + Decimal(index), fs[0], ts[0], cs);
      ArrayEdits(e, path, index + 1, fs[1..], ts[1..], cs);
      SettlesRestBoth(e, path, index, fs, ts, cs);
    } else if fs != [] {
      TailHeight(fs);
      PlainTokens(index);
      ArrayEdits(e, path, index, fs[1..], ts, cs);
    } else if ts != [] {
      PlainTokens(index);
      ArrayEdits(e, path, index + 1, fs, ts[1..], cs);
      AddsRest(e, path, index, ts, cs);
    }
  }

  lemma {:induction false} AddsRest(e: Edit, path: string, index: nat, ts: seq<Json>, cs: bool)
    requires ts != []
    ensures SettlesRest(e, path, index, [], ts, cs) <==>
            e == Edit(Add, path + "/" + "-", Some(ts[0])) || SettlesRest(e, path, index + 1, [], ts[1..], cs)
  {
    if i :| 0 <= i < |ts| && e == Edit(Add, path + "/" + "-", Some(ts[i])) {
      assert i > 0 ==> ts[1..][i - 1] == ts[i];
    }
    if i :| 0 <= i < |ts| - 1 && e == Edit(Add, path + "/" + "-", Some(ts[1..][i])) {
      assert ts[i + 1] == ts[1..][i];
    }
  }

  /** A generated edit settles a difference, and every difference is settled. */
  lemma {:induction false} CreatedExactly(e: Edit, path: string, f: Json, t: Json, cs: bool)
    requires Distinct(f, cs) && Distinct(t, cs)
    ensures e in CreatePatches(path, f, t, cs) <==> Settles(e, path, f, t, cs)
    decreases Height(f), 1, 0
  {
    if !Differ(f, t) {
      if f.Array? {
        ArrayEdits(e, path, 0, f.items, t.items, cs);
      } else if f.Object? {
        SortedHeights(f.members, cs);
        SortMembersCorrect(f.members, cs);
        SortMembersCorrect(t.members, cs);
        ObjectEdits(e, path, SortMembers(f.members, cs), SortMembers(t.members, cs), cs);
        SameSettles(e, path, f.members, t.members, SortMembers(f.members, cs), SortMembers(t.members, cs), cs);
      }
    }
  }

  // ----- objects

  lemma {:induction false} SameSettles(e: Edit, path: string, fs: seq<Member>, ts: seq<Member>,
                                       fs': seq<Member>, ts': seq<Member>, cs: bool)
    requires forall m :: m in fs <==> m in fs'
    requires forall m :: m in ts <==> m in ts'
    ensures SettlesMembers(e, path, fs, ts, cs) <==> SettlesMembers(e, path, fs', ts', cs)
  {
    assert forall k :: HasKey(fs, k, cs) <==> HasKey(fs', k, cs);
    assert forall k :: HasKey(ts, k, cs) <==> HasKey(ts', k, cs);
  }

  ghost predicate AllDistinct(ms: seq<Member>, cs: bool) {
    Increasing(ms, cs) && forall m :: m in ms ==> Distinct(m.value, cs)
  }

  /** No key of a sorted list is the same as one that comes before its first. */
  lemma {:induction false} NoKeyAhead(ms: seq<Member>, key: string, cs: bool)
    requires Increasing(ms, cs) && (ms == [] || Less(Key(key, cs), Key(ms[0].key, cs)))
    ensures !HasKey(ms, key, cs)
  {
    Trichotomy(Key(key, cs), Key(key, cs));
    forall m | m in ms ensures Key(m.key, cs) != Key(key, cs) {
      var i :| 0 <= i < |ms| && ms[i] == m;
      if i > 0 {
        LessTransitive(Key(key, cs), Key(ms[0].key, cs), Key(ms[i].key, cs));
      }
    }
  }

  lemma {:induction false} TailIncreasing(ms: seq<Member>, cs: bool)
    requires ms != [] && AllDistinct(ms, cs)
    ensures AllDistinct(ms[1..], cs) && !HasKey(ms[1..], ms[0].key, cs)
    ensures forall m :: m in ms <==> m == ms[0] || m in ms[1..]
  {
    NoKeyAhead(ms[1..], ms[0].key, cs);
    assert ms == [ms[0]] + ms[1..];
  }

  lemma {:induction false} ObjectEdits(e: Edit, path: string, fs: seq<Member>, ts: seq<Member>, cs: bool)
    requires AllDistinct(fs, cs) && AllDistinct(ts, cs)
    ensures e in ObjectPatches(path, fs, ts, cs) <==> SettlesMembers(e, path, fs, ts, cs)
    decreases MembersHeight(fs) + 1, 0, |fs| + |ts|
  {
    if fs != [] || ts != [] {
      var diff := KeyDiff(fs, ts, cs);
      KeyDiffOrders(fs, ts, cs);
      if fs != [] {
        TailIncreasing(fs, cs);
        TailMembersHeight(fs);
      }
      if ts != [] {
        TailIncreasing(ts, cs);
      }
      if diff == 0 {
        CreatedExactly(e, path + "/" + Encode(fs[0].key), fs[0].value, ts[0].value, cs);
        ObjectEdits(e, path, fs[1..], ts[1..], cs);
        BothHave(e, path, fs, ts, cs);
      } else if diff < 0 {
        NoKeyAhead(ts, fs[0].key, cs);
        ObjectEdits(e, path, fs[1..], ts, cs);
        OnlyFrom(e, path, fs, ts, cs);
      } else {
        NoKeyAhead(fs, ts[0].key, cs);
        ObjectEdits(e, path, fs, ts[1..], cs);
        OnlyTo(e, path, fs, ts, cs);
      }
    }
  }

  lemma {:induction false} BothHave(e: Edit, path: string, fs: seq<Member>, ts: seq<Member>, cs: bool)
    requires fs != [] && ts != [] && Key(fs[0].key, cs) == Key(ts[0].key, cs)
    requires AllDistinct(fs, cs) && AllDistinct(ts, cs)
    ensures SettlesMembers(e, path, fs, ts, cs) <==>
            Settles(e, path + "/" + Encode(fs[0].key), fs[0].value, ts[0].value, cs)
            || SettlesMembers(e, path, fs[1..], ts[1..], cs)
  {
    TailIncreasing(fs, cs);
    TailIncreasing(ts, cs);
    forall m | m in fs[1..] ensures HasKey(ts, m.key, cs) <==> HasKey(ts[1..], m.key, cs) {
    }
    forall n | n in ts[1..] ensures HasKey(fs, n.key, cs) <==> HasKey(fs[1..], n.key, cs) {
    }
    assert HasKey(ts, fs[0].key, cs) && HasKey(fs, ts[0].key, cs);
  }

  lemma {:induction false} OnlyFrom(e: Edit, path: string, fs: seq<Member>, ts: seq<Member>, cs: bool)
    requires fs != [] && AllDistinct(fs, cs) && !HasKey(ts, fs[0].key, cs)
    ensures SettlesMembers(e, path, fs, ts, cs) <==>
            e == Edit(Remove, path + "/" + Encode(fs[0].key), None) || SettlesMembers(e, path, fs[1..], ts, cs)
  {
    TailIncreasing(fs, cs);
    forall n | n in ts ensures HasKey(fs, n.key, cs) <==> HasKey(fs[1..], n.key, cs) {
    }
  }

  lemma {:induction false} OnlyTo(e: Edit, path: string, fs: seq<Member>, ts: seq<Member>, cs: bool)
    requires ts != [] && AllDistinct(ts, cs) && !HasKey(fs, ts[0].key, cs)
    ensures SettlesMembers(e, path, fs, ts, cs) <==>
            e == Edit(Add, path + "/" + Encode(ts[0].key), Some(ts[0].value)) || SettlesMembers(e, path, fs, ts[1..], cs)
  {
    TailIncreasing(ts, cs);
    forall m | m in fs ensures HasKey(ts, m.key, cs) <==> HasKey(ts[1..], m.key, cs) {
    }
  }
}
