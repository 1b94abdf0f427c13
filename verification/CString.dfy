/**
 C strings and the two key comparisons of cJSON: `strcmp` and its case-insensitive cousin.

 A `char` stands for one byte. A C string is a sequence of bytes without the terminator; the end of
 a string compares below every byte, as the terminator does.
 */
module CString {

  datatype Option<+T> = None | Some(value: T)

  const NUL: char := '\0'

  function ToLower(c: char): char {
    if 'A' <= c <= 'Z' then (c as int + 32) as char else c
  }

  function Fold(s: string): (r: string)
    ensures |r| == |s|
    ensures forall i :: 0 <= i < |s| ==> r[i] == ToLower(s[i])
  {
    seq(|s|, i requires 0 <= i < |s| => ToLower(s[i]))
  }

  /** What two keys must agree on to count as the same key. */
  function Key(s: string, caseSensitive: bool): string {
    if caseSensitive then s else Fold(s)
  }

  /** The value of `strcmp`, up to its magnitude where one string has ended. */
  function Compare(a: string, b: string): int
    decreases |a|
  {
    if a == "" && b == "" then 0
    else if a == "" then -1
    else if b == "" then 1
    else if a[0] != b[0] then a[0] as int - b[0] as int
    else Compare(a[1..], b[1..])
  }

  predicate Less(a: string, b: string) {
    Compare(a, b) < 0
  }

  lemma {:induction false} CompareZero(a: string, b: string)
    ensures Compare(a, b) == 0 <==> a == b
    decreases |a|
  {
    if a != "" && b != "" {
      CompareZero(a[1..], b[1..]);
      assert a == [a[0]] + a[1..] && b == [b[0]] + b[1..];
    }
  }

  lemma {:induction false} CompareSymmetric(a: string, b: string)
    ensures Compare(a, b) < 0 <==> Compare(b, a) > 0
    ensures Compare(a, b) == 0 <==> Compare(b, a) == 0
    decreases |a|
  {
    if a != "" && b != "" {
      CompareSymmetric(a[1..], b[1..]);
    }
  }

  lemma {:induction false} LessTransitive(a: string, b: string, c: string)
    requires Less(a, b) && Less(b, c)
    ensures Less(a, c)
    decreases |a|
  {
    if a != "" && b != "" && c != "" && a[0] == b[0] && b[0] == c[0] {
      LessTransitive(a[1..], b[1..], c[1..]);
    }
  }

  /** `compare_strings` is a strict total order on keys. */
  lemma Trichotomy(a: string, b: string)
    ensures Less(a, b) || a == b || Less(b, a)
    ensures !(Less(a, b) && Less(b, a))
    ensures !Less(a, a)
  {
    CompareZero(a, b);
    CompareZero(a, a);
    CompareSymmetric(a, b);
  }

  /** One string comes before another: it is a proper prefix, or has the smaller byte where they first differ. */
  predicate ComesBefore(a: string, b: string, i: nat) {
    && i <= |a| && i < |b| && a[..i] == b[..i]
    && (i < |a| ==> a[i] < b[i])
  }

  lemma FirstByte(a: string, b: string, i: nat)
    requires ComesBefore(a, b, i)
    ensures b != "" && (a != "" ==> if i == 0 then a[0] < b[0] else a[0] == b[0])
  {
    assert i > 0 ==> a[0] == a[..i][0] && b[0] == b[..i][0];
  }

  /** `strcmp` is the lexicographic order. */
  lemma {:induction false} LessIsLexicographic(a: string, b: string)
    ensures Less(a, b) <==> exists i: nat :: ComesBefore(a, b, i)
    decreases |a|
  {
    if a != "" && b != "" && a[0] == b[0] {
      var c, d := a[1..], b[1..];
      assert a == [a[0]] + c && b == [b[0]] + d;
      LessIsLexicographic(c, d);
      if Less(c, d) {
        var i: nat :| ComesBefore(c, d, i);
        assert a[..i + 1] == [a[0]] + c[..i] && b[..i + 1] == [b[0]] + d[..i];
        assert ComesBefore(a, b, i + 1);
      }
      if i: nat :| ComesBefore(a, b, i) {
        assert i > 0;
        assert c[..i - 1] == a[..i][1..] && d[..i - 1] == b[..i][1..];
        assert ComesBefore(c, d, i - 1);
      }
    } else {
      if i: nat :| ComesBefore(a, b, i) {
        FirstByte(a, b, i);
      }
      assert Less(a, b) ==> ComesBefore(a, b, 0);
    }
  }

  /** Folding maps the capital letters to the small ones, and nothing else. */
  lemma FoldAlphabet(c: char)
    ensures var upper, lower := "ABCDEFGHIJKLMNOPQRSTUVWXYZ", "abcdefghijklmnopqrstuvwxyz";
      && (forall i :: 0 <= i < 26 ==> ToLower(upper[i]) == lower[i])
      && (c !in upper ==> ToLower(c) == c)
  {
    var upper := "ABCDEFGHIJKLMNOPQRSTUVWXYZ";
    forall i | 0 <= i < 26 ensures upper[i] as int == 'A' as int + i {
    }
    if 'A' <= c <= 'Z' {
      assert upper[c as int - 'A' as int] == c;
    }
  }

  /** `strlen`-style view of memory: the bytes of `s` from `i` on, ended by the terminator. */
  function At(s: string, i: nat): char {
    if i < |s| then s[i] else NUL
  }

  predicate NulFree(s: string) {
    forall i :: 0 <= i < |s| ==> s[i] != NUL
  }

  lemma {:induction false} CompareUnfold(a: string, b: string, k: nat)
    requires k <= |a| && k <= |b| && a[..k] == b[..k]
    ensures Compare(a, b) == Compare(a[k..], b[k..])
  {
    if k == 0 {
      assert a[0..] == a && b[0..] == b;
    } else {
      assert a[0] == a[..k][0] && b[0] == b[..k][0];
      assert a[1..][..k - 1] == a[..k][1..] && b[1..][..k - 1] == b[..k][1..];
      CompareUnfold(a[1..], b[1..], k - 1);
      assert a[1..][k - 1..] == a[k..] && b[1..][k - 1..] == b[k..];
    }
  }

  /**
   The case-insensitive walk of `compare_strings` and `case_insensitive_strcmp`: its sign is the
   sign of `strcmp` on the folded strings.
   */
  method CompareIgnoringCase(a: string, b: string) returns (r: int)
    requires NulFree(a) && NulFree(b)
    ensures r == 0 <==> Fold(a) == Fold(b)
    ensures r < 0 <==> Less(Fold(a), Fold(b))
  {
    var i := 0;
    while ToLower(At(a, i)) == ToLower(At(b, i))
      invariant 0 <= i <= |a| && i <= |b|
      invariant Fold(a)[..i] == Fold(b)[..i]
      decreases |a| - i
    {
      if At(a, i) == NUL {
        assert i == |a| == |b|;
        assert Fold(a) == Fold(a)[..i] && Fold(b) == Fold(b)[..i];
        CompareZero(Fold(a), Fold(b));
        return 0;
      }
      assert Fold(a)[..i + 1] == Fold(a)[..i] + [ToLower(a[i])];
      assert Fold(b)[..i + 1] == Fold(b)[..i] + [ToLower(b[i])];
      i := i + 1;
    }
    CompareUnfold(Fold(a), Fold(b), i);
    CompareZero(Fold(a), Fold(b));
    r := ToLower(At(a, i)) as int - ToLower(At(b, i)) as int;
  }
}
