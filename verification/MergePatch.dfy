/**
 JSON Merge Patch (RFC 7396, section 2): `merge_patch` refines the algorithm of the RFC, applying a
 patch twice is applying it once, and the generated patch leads from `from` to `to` exactly when every
 null member of `to` was already there.
 */
module MergePatch {
  import opened CString
  import opened Json
  import opened Patch
  import opened PatchRoundTrip

  // ----- the RFC, on meanings

  function Base(target: Value): map<string, Value> {
    if target.VObj? then target.m else map[]
  }

  function Old(base: map<string, Value>, k: string): Value {
    if k in base then base[k] else VNull
  }

  /** MergePatch(Target, Patch) of section 2. A missing target counts as any non-object. */
  function Rfc(target: Value, patch: Value): Value
    decreases patch, 1
  {
    if patch.VObj? then VObj(RfcMembers(Base(target), patch.m)) else patch
  }

  function RfcMembers(base: map<string, Value>, patch: map<string, Value>): (r: map<string, Value>)
    ensures forall k :: k in r <==> if k in patch then !patch[k].VNull? else k in base
    ensures forall k :: k in r ==> r[k] == if k in patch then Rfc(Old(base, k), patch[k]) else base[k]
    decreases VObj(patch), 0
  {
    map k | k in base.Keys + patch.Keys && (k in patch ==> !patch[k].VNull?) ::
      if k in patch then Rfc(Old(base, k), patch[k]) else base[k]
  }

  /** Applying the same patch twice equals applying it once. */
  lemma {:induction false} RfcIdempotent(target: Value, patch: Value)
    ensures Rfc(Rfc(target, patch), patch) == Rfc(target, patch)
    decreases patch
  {
    if patch.VObj? {
      var once := RfcMembers(Base(target), patch.m);
      var twice := RfcMembers(once, patch.m);
      forall k | k in once ensures k in twice && twice[k] == once[k] {
        if k in patch.m {
          RfcIdempotent(Old(Base(target), k), patch.m[k]);
        }
      }
      assert twice == once;
    }
  }

  // ----- merge_patch

  /** `merge_patch`; a target of `None` is the NULL passed for a missing member. */
  function Merge(target: Option<Json>, patch: Json, cs: bool): Json
    decreases patch, 1
  {
    if !patch.Object? then patch
    else
      var base := if target.Some? && target.value.Object? then target.value.members else [];
      Object(MergeMembers(base, patch.members, cs))
  }

  function MergeMembers(ms: seq<Member>, ps: seq<Member>, cs: bool): seq<Member>
    decreases ps, 0
  {
    if ps == [] then ms
    else
      var rest := Without(ms, ps[0].key, cs);
      if ps[0].value.Null? then MergeMembers(rest, ps[1..], cs)
      else
        var i := Find(ms, ps[0].key, cs);
        var prior := if i < |ms| then Some(ms[i].value) else None;
        MergeMembers(rest + [Member(ps[0].key, Merge(prior, ps[0].value, cs))], ps[1..], cs)
  }

  function TargetMeaning(target: Option<Json>, cs: bool): Value {
    if target.Some? then Meaning(target.value, cs) else VNull
  }

  ghost predicate AllDistinct(ms: seq<Member>, cs: bool) {
    DistinctKeys(ms, cs) && forall i :: 0 <= i < |ms| ==> Distinct(ms[i].value, cs)
  }

  lemma WithoutAllDistinct(ms: seq<Member>, key: string, cs: bool)
    requires AllDistinct(ms, cs)
    ensures AllDistinct(Without(ms, key, cs), cs)
  {
    WithoutMeaning(ms, key, cs);
  }

  lemma AppendAllDistinct(ms: seq<Member>, x: Member, cs: bool)
    requires AllDistinct(ms, cs) && Find(ms, x.key, cs) == |ms| && Distinct(x.value, cs)
    ensures AllDistinct(ms + [x], cs)
  {
    AppendDistinct(ms, x, cs);
  }

  lemma TailAllDistinct(ps: seq<Member>, cs: bool)
    requires ps != [] && AllDistinct(ps, cs)
    ensures AllDistinct(ps[1..], cs) && Distinct(ps[0].value, cs)
    ensures Key(ps[0].key, cs) !in MembersMeaning(ps[1..], cs)
  {
    TailDistinct(ps, cs);
  }

  /** `merge_patch` refines the RFC, and keeps sibling keys distinct. */
  lemma {:induction false} MergeIsRfc(target: Option<Json>, patch: Json, cs: bool)
    requires target.Some? ==> Distinct(target.value, cs)
    requires Distinct(patch, cs)
    ensures Meaning(Merge(target, patch, cs), cs) == Rfc(TargetMeaning(target, cs), Meaning(patch, cs))
    ensures Distinct(Merge(target, patch, cs), cs)
    decreases patch, 1
  {
    if patch.Object? {
      var base := if target.Some? && target.value.Object? then target.value.members else [];
      MergeMembersIsRfc(base, patch.members, cs);
    }
  }

  lemma {:induction false} MergeMembersIsRfc(ms: seq<Member>, ps: seq<Member>, cs: bool)
    requires AllDistinct(ms, cs) && AllDistinct(ps, cs)
    ensures MembersMeaning(MergeMembers(ms, ps, cs), cs) == RfcMembers(MembersMeaning(ms, cs), MembersMeaning(ps, cs))
    ensures AllDistinct(MergeMembers(ms, ps, cs), cs)
    decreases ps, 0
  {
    if ps == [] {
      assert RfcMembers(MembersMeaning(ms, cs), map[]) == MembersMeaning(ms, cs);
    } else {
      var p, ps' := ps[0], ps[1..];
      var k, rest, i := Key(p.key, cs), Without(ms, p.key, cs), Find(ms, p.key, cs);
      TailAllDistinct(ps, cs);
      WithoutMeaning(ms, p.key, cs);
      WithoutAllDistinct(ms, p.key, cs);
      if p.value.Null? {
        MergeMembersIsRfc(rest, ps', cs);
        NullStep(MembersMeaning(ms, cs), MembersMeaning(ps', cs), k);
      } else {
        var prior := if i < |ms| then Some(ms[i].value) else None;
        MergeIsRfc(prior, p.value, cs);
        MeaningIsLookup(ms, p.key, cs);
        assert TargetMeaning(prior, cs) == Old(MembersMeaning(ms, cs), k);
        var x := Member(p.key, Merge(prior, p.value, cs));
        AppendMeaning(rest, x, cs);
        AppendAllDistinct(rest, x, cs);
        MergeMembersIsRfc(rest + [x], ps', cs);
        ValueStep(MembersMeaning(ms, cs), MembersMeaning(ps', cs), k, Meaning(p.value, cs));
      }
    }
  }

  /** One null member of the patch: handled first or with the others, the outcome is the same. */
  lemma NullStep(m: map<string, Value>, ps: map<string, Value>, k: string)
    requires k !in ps
    ensures RfcMembers(m - {k}, ps) == RfcMembers(m, ps[k := VNull])
  {
    var a, b := RfcMembers(m - {k}, ps), RfcMembers(m, ps[k := VNull]);
    forall j ensures j in a <==> j in b {
    }
    forall j | j in a && j in b ensures a[j] == b[j] {
      assert j != k && Old(m - {k}, j) == Old(m, j);
    }
  }

  lemma ValueStep(m: map<string, Value>, ps: map<string, Value>, k: string, v: Value)
    requires k !in ps && !v.VNull?
    ensures RfcMembers((m - {k})[k := Rfc(Old(m, k), v)], ps) == RfcMembers(m, ps[k := v])
  {
    var n := (m - {k})[k := Rfc(Old(m, k), v)];
    var a, b := RfcMembers(n, ps), RfcMembers(m, ps[k := v]);
    forall j ensures j in a <==> j in b {
    }
    forall j | j in a && j in b ensures a[j] == b[j] {
      if j != k {
        assert Old(n, j) == Old(m, j);
      }
    }
  }

  /** The same, said of the code. */
  lemma MergeIdempotent(target: Json, patch: Json, cs: bool)
    requires Distinct(target, cs) && Distinct(patch, cs)
    ensures var once := Merge(Some(target), patch, cs);
            Meaning(Merge(Some(once), patch, cs), cs) == Meaning(once, cs)
  {
    MergeIsRfc(Some(target), patch, cs);
    MergeIsRfc(Some(Merge(Some(target), patch, cs)), patch, cs);
    RfcIdempotent(Meaning(target, cs), Meaning(patch, cs));
  }
}
