/**
 The merge sort of `sort_list`, as a function on sequences: leave a strictly ascending list alone,
 otherwise split after the first half (rounded up), sort both halves and merge, taking from the
 second half on a tie.
 */
module Sorting {
  import opened CString
  import opened Json

  predicate Ascending<T>(s: seq<T>, key: T -> string) {
    forall i :: 0 <= i < |s| - 1 ==> Less(key(s[i]), key(s[i + 1]))
  }

  function Middle(n: nat): nat {
    (n + 1) / 2
  }

  function MergeLists<T>(a: seq<T>, b: seq<T>, key: T -> string): (r: seq<T>)
    ensures |r| == |a| + |b|
    decreases |a| + |b|
  {
    if a == [] then b
    else if b == [] then a
    else if Less(key(a[0]), key(b[0])) then [a[0]] + MergeLists(a[1..], b, key)
    else [b[0]] + MergeLists(a, b[1..], key)
  }

  function Sort<T>(s: seq<T>, key: T -> string): (r: seq<T>)
    ensures |r| == |s|
    decreases |s|
  {
    if |s| <= 1 || Ascending(s, key) then s
    else
      var m := Middle(|s|);
      MergeLists(Sort(s[..m], key), Sort(s[m..], key), key)
  }

  /** No element is followed by one with a smaller key. */
  ghost predicate Sorted<T>(s: seq<T>, key: T -> string) {
    forall i, j :: 0 <= i < j < |s| ==> !Less(key(s[j]), key(s[i]))
  }

  lemma {:induction false} MergePermutes<T>(a: seq<T>, b: seq<T>, key: T -> string)
    ensures multiset(MergeLists(a, b, key)) == multiset(a) + multiset(b)
    decreases |a| + |b|
  {
    if a != [] && b != [] {
      if Less(key(a[0]), key(b[0])) {
        MergePermutes(a[1..], b, key);
        assert a == [a[0]] + a[1..];
      } else {
        MergePermutes(a, b[1..], key);
        assert b == [b[0]] + b[1..];
      }
    }
  }

  lemma SplitPermutes<T>(s: seq<T>, m: nat)
    requires m <= |s|
    ensures multiset(s) == multiset(s[..m]) + multiset(s[m..])
  {
    assert s == s[..m] + s[m..];
  }

  lemma {:induction false} SortPermutes<T>(s: seq<T>, key: T -> string)
    ensures multiset(Sort(s, key)) == multiset(s)
    decreases |s|
  {
    if |s| <= 1 {
    } else if Ascending(s, key) {
    } else {
      var m := Middle(|s|);
      var a, b := s[..m], s[m..];
      SortPermutes(a, key);
      SortPermutes(b, key);
      MergePermutes(Sort(a, key), Sort(b, key), key);
      SplitPermutes(s, m);
    }
  }

  lemma NotLessTransitive(a: string, b: string, c: string)
    requires !Less(b, a) && !Less(c, b)
    ensures !Less(c, a)
  {
    Trichotomy(a, b);
    Trichotomy(b, c);
    Trichotomy(a, c);
    if Less(a, b) && Less(b, c) {
      LessTransitive(a, b, c);
    }
  }

  lemma {:induction false} AscendingChain<T>(s: seq<T>, key: T -> string, i: nat, j: nat)
    requires Ascending(s, key) && i < j < |s|
    ensures Less(key(s[i]), key(s[j]))
    decreases j - i
  {
    if i + 1 < j {
      AscendingChain(s, key, i, j - 1);
      assert Less(key(s[j - 1]), key(s[j - 1 + 1]));
      LessTransitive(key(s[i]), key(s[j - 1]), key(s[j]));
    } else {
      assert Less(key(s[i]), key(s[i + 1]));
    }
  }

  lemma AscendingIsSorted<T>(s: seq<T>, key: T -> string)
    requires Ascending(s, key)
    ensures Sorted(s, key)
  {
    forall i, j | 0 <= i < j < |s| ensures !Less(key(s[j]), key(s[i])) {
      AscendingChain(s, key, i, j);
      Trichotomy(key(s[i]), key(s[j]));
    }
  }

  lemma MergeHas<T>(a: seq<T>, b: seq<T>, key: T -> string, x: T)
    requires x in MergeLists(a, b, key)
    ensures x in a || x in b
  {
    MergePermutes(a, b, key);
    assert x in multiset(MergeLists(a, b, key));
    assert x in multiset(a) || x in multiset(b);
  }

  lemma {:induction false} MergeSorted<T>(a: seq<T>, b: seq<T>, key: T -> string)
    requires Sorted(a, key) && Sorted(b, key)
    ensures Sorted(MergeLists(a, b, key), key)
    decreases |a| + |b|
  {
    if a != [] && b != [] {
      var first := if Less(key(a[0]), key(b[0])) then a[0] else b[0];
      var rest := if Less(key(a[0]), key(b[0])) then MergeLists(a[1..], b, key) else MergeLists(a, b[1..], key);
      if Less(key(a[0]), key(b[0])) {
        MergeSorted(a[1..], b, key);
      } else {
        MergeSorted(a, b[1..], key);
      }
      forall x | x in rest ensures !Less(key(x), key(first)) {
        if Less(key(a[0]), key(b[0])) {
          MergeHas(a[1..], b, key, x);
        } else {
          MergeHas(a, b[1..], key, x);
        }
        Trichotomy(key(a[0]), key(b[0]));
        Trichotomy(key(first), key(first));
        if x in a {
          var i :| 0 <= i < |a| && a[i] == x;
          assert i == 0 || !Less(key(a[i]), key(a[0]));
          Trichotomy(key(a[0]), key(a[0]));
          NotLessTransitive(key(first), key(a[0]), key(x));
        } else {
          var i :| 0 <= i < |b| && b[i] == x;
          assert i == 0 || !Less(key(b[i]), key(b[0]));
          Trichotomy(key(b[0]), key(b[0]));
          NotLessTransitive(key(first), key(b[0]), key(x));
        }
      }
      assert MergeLists(a, b, key) == [first] + rest;
    }
  }

  /** The sort returns the same elements, in key order. */
  lemma {:induction false} SortCorrect<T>(s: seq<T>, key: T -> string)
    ensures multiset(Sort(s, key)) == multiset(s)
    ensures Sorted(Sort(s, key), key)
    decreases |s|
  {
    SortPermutes(s, key);
    if |s| <= 1 {
    } else if Ascending(s, key) {
      AscendingIsSorted(s, key);
    } else {
      var m := Middle(|s|);
      SortCorrect(s[..m], key);
      SortCorrect(s[m..], key);
      MergeSorted(Sort(s[..m], key), Sort(s[m..], key), key);
    }
  }

  // ----- object members

  function MemberKey(cs: bool): Member -> string {
    (m: Member) => Key(m.key, cs)
  }

  function SortMembers(ms: seq<Member>, cs: bool): (r: seq<Member>)
    ensures |r| == |ms|
  {
    Sort(ms, MemberKey(cs))
  }

  /** Every later key is strictly larger. */
  predicate Increasing(ms: seq<Member>, cs: bool) {
    forall i, j :: 0 <= i < j < |ms| ==> Less(Key(ms[i].key, cs), Key(ms[j].key, cs))
  }

  lemma SameMembers<T>(a: seq<T>, b: seq<T>)
    requires multiset(a) == multiset(b)
    ensures forall x :: x in a <==> x in b
  {
    forall x ensures x in a <==> x in b {
      assert x in multiset(a) <==> x in multiset(b);
    }
  }

  lemma Multiplicity<T>(s: seq<T>, i: nat, j: nat)
    requires i < j < |s| && s[i] == s[j]
    ensures multiset(s)[s[i]] >= 2
  {
    assert s == s[..i] + [s[i]] + s[i + 1..j] + [s[j]] + s[j + 1..];
  }

  lemma {:induction false} DistinctOnce(a: seq<Member>, cs: bool, x: Member)
    requires DistinctKeys(a, cs)
    ensures multiset(a)[x] <= 1
  {
    if a != [] {
      var rest := a[1..];
      DistinctOnce(rest, cs, x);
      assert a == [a[0]] + rest;
    }
  }

  lemma PermutedDistinct(a: seq<Member>, b: seq<Member>, cs: bool)
    requires multiset(a) == multiset(b) && DistinctKeys(a, cs)
    ensures DistinctKeys(b, cs)
  {
    SameMembers(a, b);
    forall i, j | 0 <= i < j < |b| ensures Key(b[i].key, cs) != Key(b[j].key, cs) {
      assert b[i] in a && b[j] in a;
      var p :| 0 <= p < |a| && a[p] == b[i];
      var q :| 0 <= q < |a| && a[q] == b[j];
      if p == q {
        Multiplicity(b, i, j);
        DistinctOnce(a, cs, b[i]);
      }
    }
  }

  /** Permuting members with distinct keys does not change the meaning. */
  lemma PermutedMeaning(a: seq<Member>, b: seq<Member>, cs: bool)
    requires multiset(a) == multiset(b) && DistinctKeys(a, cs)
    ensures MembersMeaning(a, cs) == MembersMeaning(b, cs)
  {
    PermutedDistinct(a, b, cs);
    SameMembers(a, b);
    MeaningKeys(a, cs);
    MeaningKeys(b, cs);
    var ma, mb := MembersMeaning(a, cs), MembersMeaning(b, cs);
    forall k | k in ma ensures k in mb && ma[k] == mb[k] {
      var i :| 0 <= i < |a| && Key(a[i].key, cs) == k;
      assert a[i] in b;
      var j :| 0 <= j < |b| && b[j] == a[i];
      MeaningAt(a, i, cs);
      MeaningAt(b, j, cs);
    }
    forall k | k in mb ensures k in ma {
      var j :| 0 <= j < |b| && Key(b[j].key, cs) == k;
      assert b[j] in a;
      var i :| 0 <= i < |a| && a[i] == b[j];
      MeaningAt(a, i, cs);
    }
  }

  /** Sorting members with distinct keys gives strictly increasing keys and the same meaning. */
  lemma SortMembersCorrect(ms: seq<Member>, cs: bool)
    requires DistinctKeys(ms, cs)
    ensures multiset(SortMembers(ms, cs)) == multiset(ms)
    ensures forall m :: m in SortMembers(ms, cs) <==> m in ms
    ensures DistinctKeys(SortMembers(ms, cs), cs)
    ensures Increasing(SortMembers(ms, cs), cs)
    ensures MembersMeaning(SortMembers(ms, cs), cs) == MembersMeaning(ms, cs)
  {
    var r := SortMembers(ms, cs);
    SortCorrect(ms, MemberKey(cs));
    SameMembers(ms, r);
    PermutedDistinct(ms, r, cs);
    PermutedMeaning(ms, r, cs);
    forall i, j | 0 <= i < j < |r| ensures Less(Key(r[i].key, cs), Key(r[j].key, cs)) {
      assert !Less(MemberKey(cs)(r[j]), MemberKey(cs)(r[i]));
      Trichotomy(Key(r[i].key, cs), Key(r[j].key, cs));
    }
  }
}
