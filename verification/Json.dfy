/**
 The JSON tree of cJSON as a value, key lookup in an object, and the meaning of a tree: what is left
 of it when the order of object members is forgotten.
 */
module Json {
  import opened CString

  /** Integers that `%1.15g` prints exactly and `compare_double` tells apart. */
  const NUM_LIMIT: int := 1_000_000_000_000_000
  type Num = n: int | -1_000_000_000_000_000 < n < 1_000_000_000_000_000

  datatype Json =
    | Null
    | False
    | True
    | Number(n: Num)
    | Str(text: string)
    | Array(items: seq<Json>)
    | Object(members: seq<Member>)

  datatype Member = Member(key: string, value: Json)

  // ----- key lookup

  /** `get_object_item`: the position of the first member with this key, or `|ms|`. */
  function Find(ms: seq<Member>, key: string, cs: bool): (r: nat)
    ensures r <= |ms|
    ensures r < |ms| ==> Key(ms[r].key, cs) == Key(key, cs)
    ensures forall i :: 0 <= i < r ==> Key(ms[i].key, cs) != Key(key, cs)
  {
    if ms == [] then 0
    else if Key(ms[0].key, cs) == Key(key, cs) then 0
    else 1 + Find(ms[1..], key, cs)
  }

  lemma FindIs(ms: seq<Member>, key: string, cs: bool, i: nat)
    requires i < |ms| && Key(ms[i].key, cs) == Key(key, cs)
    requires forall j :: 0 <= j < i ==> Key(ms[j].key, cs) != Key(key, cs)
    ensures Find(ms, key, cs) == i
  {
  }

  predicate DistinctKeys(ms: seq<Member>, cs: bool) {
    forall i, j :: 0 <= i < j < |ms| ==> Key(ms[i].key, cs) != Key(ms[j].key, cs)
  }

  /** Sibling keys are distinct, at every level. */
  predicate Distinct(v: Json, cs: bool) {
    match v
    case Array(items) => forall i :: 0 <= i < |items| ==> Distinct(items[i], cs)
    case Object(ms) => DistinctKeys(ms, cs) && forall i :: 0 <= i < |ms| ==> Distinct(ms[i].value, cs)
    case _ => true
  }

  /** Keys that differ after folding differ. */
  lemma {:induction false} DistinctWeaken(v: Json, cs: bool)
    requires Distinct(v, false)
    ensures Distinct(v, cs)
  {
    match v
    case Array(items) =>
      forall i | 0 <= i < |items| ensures Distinct(items[i], cs) { DistinctWeaken(items[i], cs); }
    case Object(ms) =>
      forall i | 0 <= i < |ms| ensures Distinct(ms[i].value, cs) { DistinctWeaken(ms[i].value, cs); }
    case _ =>
  }

  /** How many arrays and objects are nested in each other. */
  function Height(v: Json): nat
    decreases v, 1
  {
    match v
    case Array(items) => 1 + ItemsHeight(items)
    case Object(ms) => 1 + MembersHeight(ms)
    case _ => 0
  }

  function ItemsHeight(items: seq<Json>): (r: nat)
    ensures forall i :: 0 <= i < |items| ==> Height(items[i]) <= r
    decreases items, 0
  {
    if items == [] then 0
    else
      var h, t := Height(items[0]), ItemsHeight(items[1..]);
      assert forall i :: 1 <= i < |items| ==> items[i] == items[1..][i - 1];
      if h > t then h else t
  }

  function MembersHeight(ms: seq<Member>): (r: nat)
    ensures forall i :: 0 <= i < |ms| ==> Height(ms[i].value) <= r
    decreases ms, 0
  {
    if ms == [] then 0
    else
      var h, t := Height(ms[0].value), MembersHeight(ms[1..]);
      assert forall i :: 1 <= i < |ms| ==> ms[i] == ms[1..][i - 1];
      if h > t then h else t
  }

  lemma ConsItemsHeight(x: Json, xs: seq<Json>, h: nat)
    requires Height(x) <= h && ItemsHeight(xs) <= h
    ensures ItemsHeight([x] + xs) <= h
  {
    assert ([x] + xs)[1..] == xs;
  }

  lemma ConsMembersHeight(m: Member, ms: seq<Member>, h: nat)
    requires Height(m.value) <= h && MembersHeight(ms) <= h
    ensures MembersHeight([m] + ms) <= h
  {
    assert ([m] + ms)[1..] == ms;
  }

  lemma {:induction false} MembersHeightBound(ms: seq<Member>, h: nat)
    requires forall i :: 0 <= i < |ms| ==> Height(ms[i].value) <= h
    ensures MembersHeight(ms) <= h
  {
    if ms != [] {
      MembersHeightBound(ms[1..], h);
    }
  }

  // ----- meaning: the tree up to member order

  datatype Value =
    | VNull
    | VBool(b: bool)
    | VNum(n: int)
    | VStr(s: string)
    | VArr(vs: seq<Value>)
    | VObj(m: map<string, Value>)

  function Meaning(v: Json, cs: bool): Value
    decreases v, 1
  {
    match v
    case Null => VNull
    case False => VBool(false)
    case True => VBool(true)
    case Number(n) => VNum(n)
    case Str(s) => VStr(s)
    case Array(items) => VArr(Meanings(items, cs))
    case Object(ms) => VObj(MembersMeaning(ms, cs))
  }

  function Meanings(items: seq<Json>, cs: bool): (r: seq<Value>)
    ensures |r| == |items|
    ensures forall i :: 0 <= i < |items| ==> r[i] == Meaning(items[i], cs)
    decreases items, 0
  {
    if items == [] then [] else [Meaning(items[0], cs)] + Meanings(items[1..], cs)
  }

  lemma EqualMeanings(xs: seq<Json>, ys: seq<Json>, cs: bool)
    ensures Meanings(xs, cs) == Meanings(ys, cs) <==>
            |xs| == |ys| && forall i :: 0 <= i < |xs| ==> Meaning(xs[i], cs) == Meaning(ys[i], cs)
  {
    var p, q := Meanings(xs, cs), Meanings(ys, cs);
    if p == q {
      forall i | 0 <= i < |xs| ensures Meaning(xs[i], cs) == Meaning(ys[i], cs) {
        assert p[i] == q[i];
      }
    }
  }

  /** The first member with a key wins, as lookup has it. */
  function MembersMeaning(ms: seq<Member>, cs: bool): (r: map<string, Value>)
    decreases ms, 0
  {
    if ms == [] then map[]
    else MembersMeaning(ms[1..], cs)[Key(ms[0].key, cs) := Meaning(ms[0].value, cs)]
  }

  /** The meaning of an object is what lookup sees. */
  lemma {:induction false} MeaningIsLookup(ms: seq<Member>, key: string, cs: bool)
    ensures Key(key, cs) in MembersMeaning(ms, cs) <==> Find(ms, key, cs) < |ms|
    ensures Find(ms, key, cs) < |ms| ==>
              MembersMeaning(ms, cs)[Key(key, cs)] == Meaning(ms[Find(ms, key, cs)].value, cs)
  {
    if ms != [] {
      MeaningIsLookup(ms[1..], key, cs);
    }
  }

  /** Every key of the meaning is the key of a member. */
  lemma {:induction false} MeaningKeys(ms: seq<Member>, cs: bool)
    ensures forall k :: k in MembersMeaning(ms, cs) <==> exists i :: 0 <= i < |ms| && Key(ms[i].key, cs) == k
  {
    if ms != [] {
      MeaningKeys(ms[1..], cs);
      forall k ensures k in MembersMeaning(ms, cs) <==> exists i :: 0 <= i < |ms| && Key(ms[i].key, cs) == k {
        if k in MembersMeaning(ms[1..], cs) {
          var i :| 0 <= i < |ms| - 1 && Key(ms[1..][i].key, cs) == k;
          assert Key(ms[i + 1].key, cs) == k;
        }
        if i :| 0 <= i < |ms| && Key(ms[i].key, cs) == k && i > 0 {
          assert Key(ms[1..][i - 1].key, cs) == k;
        }
      }
    }
  }

  /** With distinct keys, each member is what its key means. */
  lemma MeaningAt(ms: seq<Member>, i: nat, cs: bool)
    requires i < |ms| && DistinctKeys(ms, cs)
    ensures Key(ms[i].key, cs) in MembersMeaning(ms, cs)
    ensures MembersMeaning(ms, cs)[Key(ms[i].key, cs)] == Meaning(ms[i].value, cs)
    ensures Find(ms, ms[i].key, cs) == i
  {
    FindIs(ms, ms[i].key, cs, i);
    MeaningIsLookup(ms, ms[i].key, cs);
  }
}
