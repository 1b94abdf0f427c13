/**
 What the sort does with equal keys: their elements come out in reverse order. Together with the order of the keys
 this says all there is to say about the sort.
 */
module SortTies {
  import opened CString
  import opened Sorting

  /** The elements with a key, in order. */
  function WithKey<T>(s: seq<T>, key: T -> string, k: string): seq<T> {
    if s == [] then []
    else (if key(s[0]) == k then [s[0]] else []) + WithKey(s[1..], key, k)
  }

  function Reversed<T>(s: seq<T>): seq<T> {
    if s == [] then [] else Reversed(s[1..]) + [s[0]]
  }

  lemma {:induction false} WithKeyConcat<T>(a: seq<T>, b: seq<T>, key: T -> string, k: string)
    ensures WithKey(a + b, key, k) == WithKey(a, key, k) + WithKey(b, key, k)
  {
    if a == [] {
      assert a + b == b;
    } else {
      WithKeyConcat(a[1..], b, key, k);
      assert (a + b)[1..] == a[1..] + b;
    }
  }

  lemma {:induction false} ReversedConcat<T>(a: seq<T>, b: seq<T>)
    ensures Reversed(a + b) == Reversed(b) + Reversed(a)
  {
    if a == [] {
      assert a + b == b;
    } else {
      ReversedConcat(a[1..], b);
      assert (a + b)[1..] == a[1..] + b;
    }
  }

  lemma SortedTail<T>(s: seq<T>, key: T -> string)
    requires s != [] && Sorted(s, key)
    ensures Sorted(s[1..], key)
    ensures forall x :: x in s ==> !Less(key(x), key(s[0]))
  {
    Trichotomy(key(s[0]), key(s[0]));
    forall x | x in s ensures !Less(key(x), key(s[0])) {
      var i :| 0 <= i < |s| && s[i] == x;
      assert i > 0 ==> !Less(key(s[i]), key(s[0]));
    }
  }

  lemma {:induction false} WithKeyNone<T>(s: seq<T>, key: T -> string, k: string)
    requires forall x :: x in s ==> key(x) != k
    ensures WithKey(s, key, k) == []
  {
    if s != [] {
      assert s[0] in s;
      WithKeyNone(s[1..], key, k);
    }
  }

  lemma {:induction false} WithKeyIn<T>(s: seq<T>, key: T -> string, k: string)
    ensures forall x :: x in WithKey(s, key, k) ==> x in s && key(x) == k
  {
    if s != [] {
      WithKeyIn(s[1..], key, k);
    }
  }

  /** Merging puts the elements of the second list first. */
  lemma {:induction false} MergeTies<T>(a: seq<T>, b: seq<T>, key: T -> string, k: string)
    requires Sorted(a, key) && Sorted(b, key)
    ensures WithKey(MergeLists(a, b, key), key, k) == WithKey(b, key, k) + WithKey(a, key, k)
    decreases |a| + |b|
  {
    if a != [] && b != [] {
      SortedTail(a, key);
      SortedTail(b, key);
      if Less(key(a[0]), key(b[0])) {
        MergeTies(a[1..], b, key, k);
        TakeFirst(a, b, MergeLists(a[1..], b, key), key, k);
      } else {
        MergeTies(a, b[1..], key, k);
        TakeSecond(a, b, MergeLists(a, b[1..], key), key, k);
      }
    }
  }

  lemma {:induction false} ConsWithKey<T>(x: T, rest: seq<T>, key: T -> string, k: string)
    ensures WithKey([x] + rest, key, k) == (if key(x) == k then [x] else []) + WithKey(rest, key, k)
  {
    assert ([x] + rest)[1..] == rest;
  }

  lemma {:induction false} TakeFirst<T>(a: seq<T>, b: seq<T>, rest: seq<T>, key: T -> string, k: string)
    requires a != [] && b != [] && Less(key(a[0]), key(b[0])) && forall x :: x in b ==> !Less(key(x), key(b[0]))
    requires WithKey(rest, key, k) == WithKey(b, key, k) + WithKey(a[1..], key, k)
    ensures WithKey([a[0]] + rest, key, k) == WithKey(b, key, k) + WithKey(a, key, k)
  {
    ConsWithKey(a[0], rest, key, k);
    if key(a[0]) == k {
      WithKeyNone(b, key, k);
      assert WithKey(rest, key, k) == WithKey(a[1..], key, k);
    }
  }

  lemma {:induction false} TakeSecond<T>(a: seq<T>, b: seq<T>, rest: seq<T>, key: T -> string, k: string)
    requires b != [] && WithKey(rest, key, k) == WithKey(b[1..], key, k) + WithKey(a, key, k)
    ensures WithKey([b[0]] + rest, key, k) == WithKey(b, key, k) + WithKey(a, key, k)
  {
    ConsWithKey(b[0], rest, key, k);
    FrontOfSum(b[0], WithKey(b[1..], key, k), WithKey(a, key, k));
  }

  lemma FrontOfSum<T>(x: T, a: seq<T>, b: seq<T>)
    ensures [x] + (a + b) == [x] + a + b
  {
  }

  lemma {:induction false} AscendingOnce<T>(s: seq<T>, key: T -> string, k: string)
    requires Ascending(s, key)
    ensures |WithKey(s, key, k)| <= 1
  {
    if s != [] {
      AscendingOnce(s[1..], key, k);
      if key(s[0]) == k {
        forall x | x in s[1..] ensures key(x) != k {
          var i :| 0 <= i < |s| - 1 && s[1..][i] == x;
          AscendingChain(s, key, 0, i + 1);
          Trichotomy(k, k);
        }
        WithKeyNone(s[1..], key, k);
      }
    }
  }

  /** Elements with equal keys come out in reverse order. */
  lemma {:induction false} EqualKeysReversed<T>(s: seq<T>, key: T -> string, k: string)
    ensures WithKey(Sort(s, key), key, k) == Reversed(WithKey(s, key, k))
    decreases |s|
  {
    if |s| <= 1 || Ascending(s, key) {
      OneReversed(s, key, k);
    } else {
      var m := Middle(|s|);
      EqualKeysReversed(s[..m], key, k);
      EqualKeysReversed(s[m..], key, k);
      SortCorrect(s[..m], key);
      SortCorrect(s[m..], key);
      HalvesReversed(s[..m], s[m..], Sort(s[..m], key), Sort(s[m..], key), key, k);
      assert s[..m] + s[m..] == s;
    }
  }

  lemma {:induction false} OneReversed<T>(s: seq<T>, key: T -> string, k: string)
    requires |s| <= 1 || Ascending(s, key)
    ensures WithKey(s, key, k) == Reversed(WithKey(s, key, k))
  {
    AscendingOnce(s, key, k);
    ShortReversed(WithKey(s, key, k));
  }

  lemma {:induction false} ShortReversed<T>(s: seq<T>)
    requires |s| <= 1
    ensures Reversed(s) == s
  {
  }

  lemma {:induction false} HalvesReversed<T>(a: seq<T>, b: seq<T>, x: seq<T>, y: seq<T>, key: T -> string, k: string)
    requires Sorted(x, key) && Sorted(y, key)
    requires WithKey(x, key, k) == Reversed(WithKey(a, key, k)) && WithKey(y, key, k) == Reversed(WithKey(b, key, k))
    ensures WithKey(MergeLists(x, y, key), key, k) == Reversed(WithKey(a + b, key, k))
  {
    MergeTies(x, y, key, k);
    WithKeyConcat(a, b, key, k);
    ReversedConcat(WithKey(a, key, k), WithKey(b, key, k));
  }

  lemma FirstWithKey<T>(s: seq<T>, key: T -> string)
    requires s != []
    ensures var w := WithKey(s, key, key(s[0])); w != [] && w[0] == s[0]
  {
  }

  lemma FirstNotLess<T>(s: seq<T>, t: seq<T>, key: T -> string)
    requires s != [] && t != [] && Sorted(t, key)
    requires WithKey(s, key, key(s[0])) == WithKey(t, key, key(s[0]))
    ensures !Less(key(s[0]), key(t[0]))
  {
    FirstWithKey(s, key);
    WithKeyIn(t, key, key(s[0]));
    SortedTail(t, key);
    assert WithKey(t, key, key(s[0]))[0] in t;
  }

  /** The same elements, in the same order, for each key. */
  ghost predicate SameTies<T>(s: seq<T>, t: seq<T>, key: T -> string) {
    forall k :: WithKey(s, key, k) == WithKey(t, key, k)
  }

  lemma EmptyTogether<T>(s: seq<T>, t: seq<T>, key: T -> string)
    requires SameTies(s, t, key) && s != []
    ensures t != []
  {
    FirstWithKey(s, key);
    assert WithKey(s, key, key(s[0])) == WithKey(t, key, key(s[0]));
  }

  lemma {:induction false} TailTies<T>(s: seq<T>, t: seq<T>, key: T -> string)
    requires SameTies(s, t, key) && s != [] && t != [] && key(s[0]) == key(t[0])
    ensures SameTies(s[1..], t[1..], key)
  {
    forall k ensures WithKey(s[1..], key, k) == WithKey(t[1..], key, k) {
      TailWithKey(s, key, k);
      TailWithKey(t, key, k);
      assert WithKey(s, key, k) == WithKey(t, key, k);
    }
  }

  lemma TailWithKey<T>(s: seq<T>, key: T -> string, k: string)
    requires s != []
    ensures WithKey(s, key, k) == (if key(s[0]) == k then [s[0]] else []) + WithKey(s[1..], key, k)
    ensures key(s[0]) == k ==> WithKey(s[1..], key, k) == WithKey(s, key, k)[1..]
    ensures key(s[0]) != k ==> WithKey(s[1..], key, k) == WithKey(s, key, k)
  {
  }

  lemma {:induction false} SortedIsUnique<T>(s: seq<T>, t: seq<T>, key: T -> string)
    requires Sorted(s, key) && Sorted(t, key) && SameTies(s, t, key)
    ensures s == t
    decreases |s|
  {
    if s != [] {
      EmptyTogether(s, t, key);
      assert WithKey(s, key, key(s[0])) == WithKey(t, key, key(s[0]));
      assert WithKey(s, key, key(t[0])) == WithKey(t, key, key(t[0]));
      FirstNotLess(s, t, key);
      FirstNotLess(t, s, key);
      Trichotomy(key(s[0]), key(t[0]));
      FirstWithKey(s, key);
      FirstWithKey(t, key);
      SortedTail(s, key);
      SortedTail(t, key);
      TailTies(s, t, key);
      SortedIsUnique(s[1..], t[1..], key);
      assert s == [s[0]] + s[1..] && t == [t[0]] + t[1..];
    } else if t != [] {
      EmptyTogether(t, s, key);
    }
  }

  ghost predicate TiesReversed<T>(t: seq<T>, s: seq<T>, key: T -> string) {
    forall k :: WithKey(t, key, k) == Reversed(WithKey(s, key, k))
  }

  /** The sort is the one list in key order with the elements of each key reversed. */
  lemma SortExactly<T>(s: seq<T>, t: seq<T>, key: T -> string)
    ensures t == Sort(s, key) <==> Sorted(t, key) && TiesReversed(t, s, key)
  {
    var u := Sort(s, key);
    SortCorrect(s, key);
    forall k ensures WithKey(u, key, k) == Reversed(WithKey(s, key, k)) {
      EqualKeysReversed(s, key, k);
    }
    if Sorted(t, key) && TiesReversed(t, s, key) {
      forall k ensures WithKey(t, key, k) == WithKey(u, key, k) {
      }
      SortedIsUnique(t, u, key);
    }
  }
}
