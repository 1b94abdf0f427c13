/**
 The order in which `merge_patch` leaves the members of an object: those the patch does not name stay in front, as
 they were, and those it sets follow in the order of the patch.
 */
module MergeOrder {
  import opened CString
  import opened Sequences
  import opened Json
  import opened Patch
  import opened MergePatch

  predicate Names(ps: seq<Member>, key: string, cs: bool) {
    exists i :: 0 <= i < |ps| && Key(ps[i].key, cs) == Key(key, cs)
  }

  function Untouched(ms: seq<Member>, ps: seq<Member>, cs: bool): seq<Member> {
    if ms == [] then [] else Unnamed(ms[0], ps, cs) + Untouched(ms[1..], ps, cs)
  }

  function Unnamed(m: Member, ps: seq<Member>, cs: bool): seq<Member> {
    if Names(ps, m.key, cs) then [] else [m]
  }

  function Prior(ms: seq<Member>, key: string, cs: bool): Option<Json> {
    var i := Find(ms, key, cs);
    if i < |ms| then Some(ms[i].value) else None
  }

  function Written(ms: seq<Member>, ps: seq<Member>, cs: bool): seq<Member> {
    if ps == [] then []
    else
      var p := ps[0];
      (if p.value.Null? then [] else [Member(p.key, Merge(Prior(ms, p.key, cs), p.value, cs))]) + Written(ms, ps[1..], cs)
  }

  lemma {:induction false} UntouchedConcat(a: seq<Member>, b: seq<Member>, ps: seq<Member>, cs: bool)
    ensures Untouched(a + b, ps, cs) == Untouched(a, ps, cs) + Untouched(b, ps, cs)
  {
    if a == [] {
      assert a + b == b;
    } else {
      UntouchedConcat(a[1..], b, ps, cs);
      assert (a + b)[1..] == a[1..] + b;
      Regroup(Unnamed(a[0], ps, cs), Untouched(a[1..], ps, cs), Untouched(b, ps, cs));
    }
  }

  lemma {:induction false} UntouchedAgain(ms: seq<Member>, ps: seq<Member>, qs: seq<Member>, cs: bool)
    requires forall m :: m in ms ==> Names(ps, m.key, cs) == Names(qs, m.key, cs)
    ensures Untouched(ms, ps, cs) == Untouched(ms, qs, cs)
  {
    if ms != [] {
      assert ms[0] in ms;
      UntouchedAgain(ms[1..], ps, qs, cs);
    }
  }

  lemma {:induction false} NamesFirst(ps: seq<Member>, key: string, cs: bool)
    requires ps != []
    ensures Names(ps, key, cs) <==> Key(ps[0].key, cs) == Key(key, cs) || Names(ps[1..], key, cs)
  {
    if Names(ps[1..], key, cs) {
      var i :| 0 <= i < |ps| - 1 && Key(ps[1..][i].key, cs) == Key(key, cs);
      assert Key(ps[i + 1].key, cs) == Key(key, cs);
    }
    if i :| 0 < i < |ps| && Key(ps[i].key, cs) == Key(key, cs) {
      assert Key(ps[1..][i - 1].key, cs) == Key(key, cs);
    }
  }

  /** What is left without the first key of the patch, as far as the rest of the patch does not name it. */
  lemma {:induction false} WithoutUntouched(ms: seq<Member>, ps: seq<Member>, cs: bool)
    requires DistinctKeys(ms, cs) && ps != []
    ensures Untouched(Without(ms, ps[0].key, cs), ps[1..], cs) == Untouched(ms, ps, cs)
  {
    var key := ps[0].key;
    var rest, i := Without(ms, key, cs), Find(ms, key, cs);
    forall j | 0 <= j < |rest| ensures Names(ps[1..], rest[j].key, cs) == Names(ps, rest[j].key, cs) {
      assert rest[j] == ms[if j < i then j else j + 1];
      NamesFirst(ps, rest[j].key, cs);
    }
    UntouchedAgain(rest, ps[1..], ps, cs);
    if i < |ms| {
      NamesFirst(ps, ms[i].key, cs);
      RemoveNamed(ms, i, ps, cs);
    }
  }

  lemma {:induction false} RemoveNamed(ms: seq<Member>, i: nat, ps: seq<Member>, cs: bool)
    requires i < |ms| && Names(ps, ms[i].key, cs)
    ensures Untouched(RemoveAt(ms, i), ps, cs) == Untouched(ms, ps, cs)
  {
    var after := ms[i..];
    assert after[0] == ms[i] && after[1..] == ms[i + 1..] && ms == ms[..i] + after;
    UntouchedConcat(ms[..i], after, ps, cs);
    UntouchedConcat(ms[..i], after[1..], ps, cs);
  }

  lemma {:induction false} WrittenAgain(ms: seq<Member>, ns: seq<Member>, ps: seq<Member>, cs: bool)
    requires forall p :: p in ps ==> Prior(ms, p.key, cs) == Prior(ns, p.key, cs)
    ensures Written(ms, ps, cs) == Written(ns, ps, cs)
  {
    if ps != [] {
      assert ps[0] in ps;
      WrittenAgain(ms, ns, ps[1..], cs);
    }
  }

  lemma {:induction false} FindIn(ms: seq<Member>, key: string, cs: bool, i: nat)
    requires DistinctKeys(ms, cs) && i < |ms| && Key(ms[i].key, cs) == Key(key, cs)
    ensures Prior(ms, key, cs) == Some(ms[i].value)
  {
    FindIs(ms, key, cs, i);
  }

  /** Looking up another key does not see the change. */
  lemma {:induction false} PriorElsewhere(ms: seq<Member>, ns: seq<Member>, key: string, tail: seq<Member>, other: string, cs: bool)
    requires DistinctKeys(ms, cs) && ns == Without(ms, key, cs) + tail && DistinctKeys(ns, cs)
    requires Key(key, cs) != Key(other, cs) && forall m :: m in tail ==> Key(m.key, cs) == Key(key, cs)
    ensures Prior(ns, other, cs) == Prior(ms, other, cs)
  {
    var rest, k, i := Without(ms, key, cs), Find(ms, key, cs), Find(ms, other, cs);
    if i < |ms| {
      var j := if i < k then i else i - 1;
      assert i != k;
      assert rest[j] == ms[i] && ns[j] == ms[i];
      FindIn(ns, other, cs, j);
    } else {
      forall j | 0 <= j < |ns| ensures Key(ns[j].key, cs) != Key(other, cs) {
        if j < |rest| {
          assert ns[j] == rest[j] == ms[if j < k then j else j + 1];
        } else {
          assert ns[j] in tail;
        }
      }
    }
  }

  lemma {:induction false} ChangedDistinct(ms: seq<Member>, key: string, tail: seq<Member>, cs: bool)
    requires DistinctKeys(ms, cs) && |tail| <= 1 && forall m :: m in tail ==> Key(m.key, cs) == Key(key, cs)
    ensures DistinctKeys(Without(ms, key, cs) + tail, cs)
  {
    var rest, k := Without(ms, key, cs), Find(ms, key, cs);
    forall j | 0 <= j < |rest| ensures Key(rest[j].key, cs) != Key(key, cs) {
      assert rest[j] == ms[if j < k then j else j + 1];
    }
    forall i, j | 0 <= i < j < |rest| + |tail|
      ensures Key((rest + tail)[i].key, cs) != Key((rest + tail)[j].key, cs)
    {
      if j == |rest| {
        assert (rest + tail)[j] in tail;
      } else {
        assert rest[i] == ms[if i < k then i else i + 1] && rest[j] == ms[if j < k then j else j + 1];
      }
    }
  }

  /** One member of the patch. */
  lemma {:induction false} OneMember(ms: seq<Member>, ps: seq<Member>, tail: seq<Member>, cs: bool)
    requires ps != [] && DistinctKeys(ms, cs) && DistinctKeys(ps, cs)
    requires |tail| <= 1 && forall m :: m in tail ==> Key(m.key, cs) == Key(ps[0].key, cs)
    ensures var ns := Without(ms, ps[0].key, cs) + tail;
      && DistinctKeys(ns, cs)
      && Untouched(ns, ps[1..], cs) == Untouched(ms, ps, cs) + tail
      && Written(ns, ps[1..], cs) == Written(ms, ps[1..], cs)
  {
    var key := ps[0].key;
    var ns := Without(ms, key, cs) + tail;
    ChangedDistinct(ms, key, tail, cs);
    WithoutUntouched(ms, ps, cs);
    UntouchedConcat(Without(ms, key, cs), tail, ps[1..], cs);
    assert !Names(ps[1..], key, cs);
    if tail != [] {
      assert tail[0] in tail;
      assert tail == [tail[0]] && tail[1..] == [];
      assert !Names(ps[1..], tail[0].key, cs);
    }
    forall p | p in ps[1..] ensures Prior(ms, p.key, cs) == Prior(ns, p.key, cs) {
      var i :| 0 <= i < |ps| - 1 && ps[1..][i] == p;
      assert ps[i + 1] == p;
      PriorElsewhere(ms, ns, key, tail, p.key, cs);
    }
    WrittenAgain(ms, ns, ps[1..], cs);
  }

  /** Members the patch does not name keep their places in front; the ones it sets follow in its order. */
  lemma {:induction false} MergedInOrder(ms: seq<Member>, ps: seq<Member>, cs: bool)
    requires DistinctKeys(ms, cs) && DistinctKeys(ps, cs)
    ensures MergeMembers(ms, ps, cs) == Untouched(ms, ps, cs) + Written(ms, ps, cs)
    decreases |ps|
  {
    if ps == [] {
      AllUntouched(ms, cs);
    } else {
      var p := ps[0];
      var tail := if p.value.Null? then [] else [Member(p.key, Merge(Prior(ms, p.key, cs), p.value, cs))];
      var ns := Without(ms, p.key, cs) + tail;
      OneMember(ms, ps, tail, cs);
      MergedInOrder(ns, ps[1..], cs);
      assert p.value.Null? ==> ns == Without(ms, p.key, cs);
      assert MergeMembers(ms, ps, cs) == MergeMembers(ns, ps[1..], cs);
      Regroup(Untouched(ms, ps, cs), tail, Written(ms, ps[1..], cs));
    }
  }

  lemma Regroup<T>(a: seq<T>, b: seq<T>, c: seq<T>)
    ensures a + b + c == a + (b + c)
  {
  }

  lemma {:induction false} AllUntouched(ms: seq<Member>, cs: bool)
    ensures Untouched(ms, [], cs) == ms
  {
    if ms != [] {
      AllUntouched(ms[1..], cs);
    }
  }
}
