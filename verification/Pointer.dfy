/**
 JSON Pointer (RFC 6901, sections 3 and 4): writing key and index tokens, matching a token against a
 key, resolving a pointer in a tree, and finding the pointer of a node.

 A node is named by its location: the child positions on the way from the root.
 */
module Pointer {
  import opened CString
  import opened Json

  const SIZE_MODULUS: int := 0x1_0000_0000_0000_0000

  // ----- tokens

  function EncodeChar(c: char): string {
    if c == '~' then "~0" else if c == '/' then "~1" else [c]
  }

  /** `encode_string_as_pointer`. */
  function Encode(s: string): (r: string)
    ensures |r| >= |s|
  {
    if s == "" then "" else EncodeChar(s[0]) + Encode(s[1..])
  }

  lemma Associative(a: string, b: string, c: string)
    ensures a + (b + c) == (a + b) + c
  {
  }

  lemma {:induction false} EncodeConcat(a: string, b: string)
    ensures Encode(a + b) == Encode(a) + Encode(b)
  {
    if a == "" {
      assert a + b == b;
    } else {
      EncodeConcat(a[1..], b);
      var c, x, y := EncodeChar(a[0]), Encode(a[1..]), Encode(b);
      assert (a + b)[1..] == a[1..] + b && (a + b)[0] == a[0];
      Associative(c, x, y);
    }
  }

  lemma EncodeSnoc(s: string, i: nat)
    requires i < |s|
    ensures Encode(s[..i + 1]) == Encode(s[..i]) + EncodeChar(s[i])
  {
    EncodeConcat(s[..i], [s[i]]);
    assert s[..i + 1] == s[..i] + [s[i]];
    assert Encode([s[i]]) == EncodeChar(s[i]);
  }

  /** One round of the write loop keeps `written` plus what is left to write. */
  lemma EncodeStep(s: string, i: nat, written: string)
    requires i < |s|
    ensures written + Encode(s[i..]) == written + EncodeChar(s[i]) + Encode(s[i + 1..])
  {
    assert s[i..][1..] == s[i + 1..];
  }

  lemma {:induction false} EncodeNoSlash(s: string)
    ensures '/' !in Encode(s)
  {
    if s != "" {
      EncodeNoSlash(s[1..]);
    }
  }

  /** `pointer_encoded_length` computes the length that `encode_string_as_pointer` writes. */
  method PointerEncodedLength(s: string) returns (length: nat)
    ensures length == |Encode(s)|
  {
    length := 0;
    var i := 0;
    while i < |s|
      invariant 0 <= i <= |s|
      invariant length == |Encode(s[..i])|
    {
      EncodeSnoc(s, i);
      if s[i] == '~' || s[i] == '/' {
        length := length + 1;
      }
      i := i + 1;
      length := length + 1;
    }
    assert s[..|s|] == s;
  }

  /** The body of the write loop: one character, escaped if need be. */
  method WriteEncoded(destination: array<char>, d: nat, c: char) returns (next: nat)
    requires d + |EncodeChar(c)| <= destination.Length
    modifies destination
    ensures next == d + |EncodeChar(c)|
    ensures destination[..next] == old(destination[..d]) + EncodeChar(c)
    ensures destination[next..] == old(destination[next..])
  {
    next := d;
    if c == '/' {
      destination[next] := '~';
      destination[next + 1] := '1';
      next := next + 1;
    } else if c == '~' {
      destination[next] := '~';
      destination[next + 1] := '0';
      next := next + 1;
    } else {
      destination[next] := c;
    }
    next := next + 1;
  }

  /** The write loop stays inside the computed length plus terminator and touches nothing else. */
  method EncodeStringAsPointer(destination: array<char>, start: nat, source: string)
    requires start + |Encode(source)| < destination.Length
    modifies destination
    ensures var end := start + |Encode(source)|;
            && destination[..end] == old(destination[..start]) + Encode(source)
            && destination[end] == NUL
            && destination[end + 1..] == old(destination[end + 1..])
  {
    var i, d := 0, start;
    ghost var end := start + |Encode(source)|;
    while i < |source|
      invariant 0 <= i <= |source|
      invariant start <= d && d + |Encode(source[i..])| == end
      invariant destination[..d] + Encode(source[i..]) == old(destination[..start]) + Encode(source)
      invariant destination[end + 1..] == old(destination[end + 1..])
    {
      EncodeStep(source, i, destination[..d]);
      ghost var before := destination[..];
      d := WriteEncoded(destination, d, source[i]);
      assert destination[end + 1..] == destination[d..][end + 1 - d..] == before[d..][end + 1 - d..] == before[end + 1..];
      i := i + 1;
    }
    assert destination[..d] + "" == destination[..d];
    destination[d] := NUL;
  }

  /** The path allocated and filled by `compose_patch`: the allocation suffices. */
  method ComposePath(path: string, suffix: string) returns (full: array<char>)
    ensures fresh(full)
    ensures full.Length == |path| + |Encode(suffix)| + 2
    ensures full[..full.Length - 1] == path + "/" + Encode(suffix)
    ensures full[full.Length - 1] == NUL
  {
    var suffixLength := PointerEncodedLength(suffix);
    full := new char[|path| + suffixLength + 2];
    forall i | 0 <= i < |path| {
      full[i] := path[i];
    }
    full[|path|] := '/';
    assert full[..|path| + 1] == path + "/";
    EncodeStringAsPointer(full, |path| + 1, suffix);
  }

  // ----- decimal indices

  function Digit(d: nat): char
    requires d < 10
  {
    ('0' as int + d) as char
  }

  /** `%lu`. */
  function Decimal(n: nat): (r: string)
    ensures |r| > 0
  {
    if n < 10 then [Digit(n)] else Decimal(n / 10) + [Digit(n % 10)]
  }

  lemma {:induction false} DecimalDigits(n: nat)
    ensures forall i :: 0 <= i < |Decimal(n)| ==> '0' <= Decimal(n)[i] <= '9'
    ensures Decimal(n)[0] == '0' ==> n == 0
    ensures n == 0 ==> Decimal(n) == "0"
  {
    if n >= 10 {
      DecimalDigits(n / 10);
    }
  }

  /** The value the digit loop accumulates over `s`, in a 64-bit `size_t`. */
  function Accumulated(s: string): nat
    requires forall i :: 0 <= i < |s| ==> s[i] >= '0'
  {
    if s == "" then 0
    else (10 * Accumulated(s[..|s| - 1]) + (s[|s| - 1] as int - '0' as int)) % SIZE_MODULUS
  }

  lemma {:induction false} AccumulatedDecimal(n: nat)
    requires n < SIZE_MODULUS
    ensures forall i :: 0 <= i < |Decimal(n)| ==> Decimal(n)[i] >= '0'
    ensures Accumulated(Decimal(n)) == n
  {
    DecimalDigits(n);
    var s := Decimal(n);
    if n >= 10 {
      AccumulatedDecimal(n / 10);
      assert s[..|s| - 1] == Decimal(n / 10);
    } else {
      assert s[..|s| - 1] == "";
      assert Accumulated("") == 0;
    }
  }

  /** Where the digit loop stops. Its second test looks at the first character only. */
  function RunLength(p: string): (r: nat)
    ensures r <= |p|
    ensures forall i :: 0 <= i < r ==> p[i] >= '0'
  {
    if At(p, 0) <= '9' then HighPrefix(p) else 0
  }

  function HighPrefix(p: string): (r: nat)
    ensures r <= |p|
    ensures forall i :: 0 <= i < r ==> p[i] >= '0'
    ensures r < |p| ==> p[r] < '0'
  {
    if p == "" || p[0] < '0' then 0 else 1 + HighPrefix(p[1..])
  }

  predicate TokenEnd(c: char) {
    c == NUL || c == '/'
  }

  /** `decode_array_index_from_pointer`. */
  function DecodeIndex(p: string): Option<nat> {
    if At(p, 0) == '0' && !TokenEnd(At(p, 1)) then None
    else
      var k := RunLength(p);
      if TokenEnd(At(p, k)) then Some(Accumulated(p[..k])) else None
  }

  method DecodeArrayIndex(p: string) returns (ok: bool, index: nat)
    requires NulFree(p)
    ensures ok == DecodeIndex(p).Some?
    ensures ok ==> index == DecodeIndex(p).value
  {
    index := 0;
    if At(p, 0) == '0' && At(p, 1) != NUL && At(p, 1) != '/' {
      return false, 0;
    }
    var position := 0;
    while At(p, position) >= '0' && At(p, 0) <= '9'
      invariant 0 <= position <= RunLength(p)
      invariant index == Accumulated(p[..position])
      decreases |p| - position
    {
      assert p[..position + 1][..position] == p[..position];
      index := (10 * index + (p[position] as int - '0' as int)) % SIZE_MODULUS;
      position := position + 1;
    }
    assert position == RunLength(p);
    if At(p, position) != NUL && At(p, position) != '/' {
      return false, 0;
    }
    return true, index;
  }

  /** A remainder of a pointer after a token: nothing, or the next token. */
  predicate Rest(p: string) {
    p == "" || p[0] == '/'
  }

  lemma {:induction false} HighPrefixIs(d: string, rest: string)
    requires Rest(rest)
    requires forall i :: 0 <= i < |d| ==> d[i] >= '0'
    ensures HighPrefix(d + rest) == |d|
  {
    if d == "" {
      assert d + rest == rest;
    } else {
      HighPrefixIs(d[1..], rest);
      assert (d + rest)[1..] == d[1..] + rest;
    }
  }

  /** Every index token written by `%lu` is read back. */
  lemma DecodeIndexDecimal(n: nat, rest: string)
    requires n < SIZE_MODULUS && Rest(rest)
    ensures DecodeIndex(Decimal(n) + rest) == Some(n)
  {
    var d := Decimal(n);
    var p := d + rest;
    DecimalDigits(n);
    AccumulatedDecimal(n);
    HighPrefixIs(d, rest);
    assert p[0] == d[0];
    assert RunLength(p) == |d|;
    assert p[..|d|] == d;
    if p[0] == '0' {
      assert d == "0";
      assert TokenEnd(At(p, 1));
    }
    assert TokenEnd(At(p, |d|));
  }

  /** An array index as section 4 of RFC 6901 has it: digits without a leading zero. */
  predicate IndexToken(d: string) {
    d != "" && (forall i :: 0 <= i < |d| ==> '0' <= d[i] <= '9') && (d[0] == '0' ==> |d| == 1)
  }

  /** Only the first character is held against `9`, and the empty token passes for 0. */
  predicate Accepted(d: string) {
    d == "" || (d[0] <= '9' && (forall i :: 0 <= i < |d| ==> d[i] >= '0') && (d[0] == '0' ==> |d| == 1))
  }

  /** Exactly which tokens are taken for an index, and which of them are one. */
  lemma DecodeIndexAccepts(d: string, rest: string)
    requires NulFree(d) && '/' !in d && Rest(rest)
    ensures DecodeIndex(d + rest).Some? <==> Accepted(d)
    ensures IndexToken(d) <==> Accepted(d) && d != "" && forall i :: 0 <= i < |d| ==> d[i] <= '9'
  {
    var p := d + rest;
    if forall i :: 0 <= i < |d| ==> d[i] >= '0' {
      HighPrefixIs(d, rest);
      assert TokenEnd(At(p, |d|));
    } else {
      var k := HighPrefix(p);
      var i :| 0 <= i < |d| && d[i] < '0';
      assert p[i] == d[i] && k <= i;
      assert p[k] == d[k] && d[k] in d;
    }
    if d != "" {
      assert p[0] == d[0] && d[0] in d;
      assert |d| > 1 ==> p[1] == d[1] && d[1] in d;
    }
  }

  /** The number a string of digits stands for. */
  function Numeral(d: string): nat
    requires forall i :: 0 <= i < |d| ==> '0' <= d[i] <= '9'
  {
    if d == "" then 0 else 10 * Numeral(d[..|d| - 1]) + (d[|d| - 1] as int - '0' as int)
  }

  /** The loop computes it modulo the width of `size_t`. */
  lemma {:induction false} AccumulatedWraps(d: string)
    requires forall i :: 0 <= i < |d| ==> '0' <= d[i] <= '9'
    ensures Accumulated(d) == Numeral(d) % SIZE_MODULUS
  {
    if d != "" {
      var front, last := d[..|d| - 1], d[|d| - 1] as int - '0' as int;
      AccumulatedWraps(front);
      WrapStep(Numeral(front), last);
    }
  }

  lemma WrapStep(n: nat, d: nat)
    ensures (10 * (n % SIZE_MODULUS) + d) % SIZE_MODULUS == (10 * n + d) % SIZE_MODULUS
  {
    var q := n / SIZE_MODULUS;
    assert 10 * n + d == 10 * (n % SIZE_MODULUS) + d + (10 * q) * SIZE_MODULUS;
  }

  /** Digits without a leading zero are the decimal text of the number they stand for. */
  lemma {:induction false} DecimalNumeral(d: string)
    requires IndexToken(d)
    ensures Decimal(Numeral(d)) == d
    ensures d[0] != '0' ==> Numeral(d) > 0
  {
    var front, last := d[..|d| - 1], d[|d| - 1] as int - '0' as int;
    if |d| == 1 {
      assert front == "";
      assert Numeral(front) == 0;
    } else {
      assert d[0] == front[0];
      DecimalNumeral(front);
      assert Numeral(d) / 10 == Numeral(front) && Numeral(d) % 10 == last;
      assert d == front + [d[|d| - 1]];
    }
  }

  lemma {:induction false} NumeralDecimal(n: nat)
    ensures IndexToken(Decimal(n)) && Numeral(Decimal(n)) == n
  {
    DecimalDigits(n);
    var d := Decimal(n);
    if n >= 10 {
      NumeralDecimal(n / 10);
      assert d[..|d| - 1] == Decimal(n / 10);
    } else {
      assert d[..|d| - 1] == "";
      assert Numeral("") == 0;
    }
    if d[0] == '0' {
      assert n == 0;
    }
  }

  predicate ReadAs(d: string, rest: string, n: nat) {
    DecodeIndex(d + rest) == Some(n) && Decimal(n) == d
  }

  /** A token is read as the index it spells if and only if it spells one that fits in `size_t`. */
  lemma DecodeIndexReadsToken(d: string, rest: string)
    requires NulFree(d) && '/' !in d && Rest(rest)
    ensures (exists n :: ReadAs(d, rest, n)) <==> IndexToken(d) && Numeral(d) < SIZE_MODULUS
  {
    if n :| ReadAs(d, rest, n) {
      ReadAsFits(d, rest, n);
    }
    if IndexToken(d) && Numeral(d) < SIZE_MODULUS {
      FitsReadAs(d, rest);
    }
  }

  lemma ReadAsFits(d: string, rest: string, n: nat)
    requires Rest(rest) && ReadAs(d, rest, n)
    ensures IndexToken(d) && Numeral(d) < SIZE_MODULUS
  {
    NumeralDecimal(n);
    DecodeIndexValue(d, rest);
  }

  lemma FitsReadAs(d: string, rest: string)
    requires Rest(rest) && IndexToken(d) && Numeral(d) < SIZE_MODULUS
    ensures ReadAs(d, rest, Numeral(d))
  {
    DecimalNumeral(d);
    DecodeIndexValue(d, rest);
  }

  /** What the digits of a token are read as. */
  lemma DecodeIndexValue(d: string, rest: string)
    requires IndexToken(d) && Rest(rest)
    ensures DecodeIndex(d + rest) == Some(Numeral(d) % SIZE_MODULUS)
  {
    var p := d + rest;
    HighPrefixIs(d, rest);
    AccumulatedWraps(d);
    assert p[0] == d[0] && p[..|d|] == d;
    assert RunLength(p) == |d| && TokenEnd(At(p, |d|));
    assert d[0] == '0' ==> TokenEnd(At(p, 1));
  }

  /** The decimal text of 2^64 is taken for the index 0. */
  lemma DecodeIndexWraps(rest: string)
    requires Rest(rest)
    ensures IndexToken(Decimal(SIZE_MODULUS)) && DecodeIndex(Decimal(SIZE_MODULUS) + rest) == Some(0)
  {
    NumeralDecimal(SIZE_MODULUS);
    DecodeIndexValue(Decimal(SIZE_MODULUS), rest);
  }

  /** Off the digits the loop misreads: it accepts letters after a leading digit. */
  lemma DecodeIndexAcceptsLetters()
    ensures DecodeIndex("5a") == Some(99)
  {
    assert HighPrefix("5a") == 1 + HighPrefix("5a"[1..]) && "5a"[1..] == "a";
    assert HighPrefix("a") == 1 + HighPrefix("a"[1..]) && "a"[1..] == "";
    assert RunLength("5a") == 2;
    assert "5a"[..2] == "5a" && "5a"[..1] == "5" && "5"[..0] == "";
    assert Accumulated("") == 0;
    assert Accumulated("5") == 5;
    assert 'a' as int - '0' as int == 49;
    assert Accumulated("5a") == (10 * 5 + 49) % SIZE_MODULUS;
  }

  // ----- matching a key token

  /** `compare_pointers`: does the token at the front of `p` name the key `name`? */
  predicate TokenMatches(name: string, p: string, cs: bool)
    decreases |name|
  {
    if name == "" || Rest(p) then Rest(p) == (name == "")
    else if p[0] == '~' then
      && ((At(p, 1) == '0' && name[0] == '~') || (At(p, 1) == '1' && name[0] == '/'))
      && |p| >= 2 && TokenMatches(name[1..], p[2..], cs)
    else
      SameChar(name[0], p[0], cs) && TokenMatches(name[1..], p[1..], cs)
  }

  method ComparePointers(name: string, p: string, cs: bool) returns (r: bool)
    requires NulFree(name) && NulFree(p)
    ensures r == TokenMatches(name, p, cs)
  {
    var i, j := 0, 0;
    while At(name, i) != NUL && At(p, j) != NUL && At(p, j) != '/'
      invariant 0 <= i <= |name| && 0 <= j <= |p|
      invariant TokenMatches(name, p, cs) == TokenMatches(name[i..], p[j..], cs)
      decreases |name| - i
    {
      assert name[i..][1..] == name[i + 1..] && p[j..][1..] == p[j + 1..];
      assert At(p[j..], 1) == At(p, j + 1);
      if At(p, j) == '~' {
        if (At(p, j + 1) != '0' || At(name, i) != '~') && (At(p, j + 1) != '1' || At(name, i) != '/') {
          return false;
        } else {
          assert p[j..][2..] == p[j + 2..];
          j := j + 1;
        }
      } else if (!cs && ToLower(At(name, i)) != ToLower(At(p, j))) || (cs && At(name, i) != At(p, j)) {
        return false;
      }
      i, j := i + 1, j + 1;
    }
    r := !((At(p, j) != NUL && At(p, j) != '/') != (At(name, i) != NUL));
  }

  predicate SameChar(a: char, b: char, cs: bool) {
    if cs then a == b else ToLower(a) == ToLower(b)
  }

  lemma KeyUnfold(a: string, b: string, cs: bool)
    ensures Key(a, cs) == Key(b, cs) <==>
            if a == "" || b == "" then a == b
            else SameChar(a[0], b[0], cs) && Key(a[1..], cs) == Key(b[1..], cs)
  {
    var x, y := Key(a, cs), Key(b, cs);
    if a != "" && b != "" {
      assert x[1..] == Key(a[1..], cs) && y[1..] == Key(b[1..], cs);
      assert x == [x[0]] + x[1..] && y == [y[0]] + y[1..];
    } else {
      assert |x| == |a| && |y| == |b|;
    }
  }

  /** An encoded key matches exactly the keys that count as the same key. */
  lemma {:induction false} TokenMatchesEncoded(name: string, key: string, rest: string, cs: bool)
    requires Rest(rest)
    ensures TokenMatches(name, Encode(key) + rest, cs) <==> Key(name, cs) == Key(key, cs)
    decreases |name|
  {
    var p := Encode(key) + rest;
    KeyUnfold(name, key, cs);
    if key == "" {
      assert p == rest;
    } else {
      var e, q := EncodeChar(key[0]), Encode(key[1..]) + rest;
      assert p == e + q;
      assert p[0] == e[0];
      if name != "" {
        TokenMatchesEncoded(name[1..], key[1..], rest, cs);
        if key[0] == '~' || key[0] == '/' {
          assert p[1] == e[1] && p[2..] == q;
          assert SameChar(name[0], key[0], cs) <==> name[0] == key[0];
        } else {
          assert p[1..] == q;
        }
      }
    }
  }

  // ----- resolving a pointer

  function SkipToken(p: string): (r: string)
    ensures Rest(r)
  {
    if Rest(p) then p else SkipToken(p[1..])
  }

  lemma {:induction false} SkipTokenIs(token: string, rest: string)
    requires '/' !in token && Rest(rest)
    ensures SkipToken(token + rest) == rest
  {
    if token == "" {
      assert token + rest == rest;
    } else {
      SkipTokenIs(token[1..], rest);
      assert (token + rest)[1..] == token[1..] + rest;
    }
  }

  lemma {:induction false} SkipTokenShorter(p: string)
    ensures |SkipToken(p)| <= |p|
  {
    if !Rest(p) {
      SkipTokenShorter(p[1..]);
    }
  }

  /** The member a token selects: the first whose key matches, or `|ms|`. */
  function MatchMember(ms: seq<Member>, p: string, cs: bool): (r: nat)
    ensures r <= |ms|
    ensures r < |ms| ==> TokenMatches(ms[r].key, p, cs)
    ensures forall i :: 0 <= i < r ==> !TokenMatches(ms[i].key, p, cs)
  {
    if ms == [] then 0
    else if TokenMatches(ms[0].key, p, cs) then 0
    else 1 + MatchMember(ms[1..], p, cs)
  }

  /** An encoded key selects what key lookup finds. */
  lemma MatchMemberIsFind(ms: seq<Member>, key: string, rest: string, cs: bool)
    requires Rest(rest)
    ensures MatchMember(ms, Encode(key) + rest, cs) == Find(ms, key, cs)
  {
    forall i | 0 <= i < |ms|
      ensures TokenMatches(ms[i].key, Encode(key) + rest, cs) <==> Key(ms[i].key, cs) == Key(key, cs)
    {
      TokenMatchesEncoded(ms[i].key, key, rest, cs);
    }
  }

  type Loc = seq<nat>

  function ChildCount(v: Json): nat {
    match v
    case Array(items) => |items|
    case Object(ms) => |ms|
    case _ => 0
  }

  function Child(v: Json, i: nat): (r: Json)
    requires i < ChildCount(v)
    ensures Height(r) < Height(v)
  {
    match v
    case Array(items) => items[i]
    case Object(ms) => ms[i].value
  }

  /** The child that the token at the front of `p` selects. */
  function Step(v: Json, p: string, cs: bool): (r: Option<nat>)
    ensures r.Some? ==> r.value < ChildCount(v)
  {
    match v
    case Array(items) =>
      var index := DecodeIndex(p);
      if index.Some? && index.value < |items| then index else None
    case Object(ms) =>
      var i := MatchMember(ms, p, cs);
      if i < |ms| then Some(i) else None
    case _ => None
  }

  function Prefixed(at: Loc, r: Option<Loc>): Option<Loc> {
    if r.None? then None else Some(at + r.value)
  }

  lemma PrefixedAgain(at: Loc, i: nat, r: Option<Loc>)
    ensures Prefixed(at, Prefixed([i], r)) == Prefixed(at + [i], r)
  {
    if r.Some? {
      assert at + ([i] + r.value) == at + [i] + r.value;
    }
  }

  /** `get_item_from_pointer`. A pointer that does not start with a slash stays where it is. */
  function Resolve(v: Json, p: string, cs: bool): (r: Option<Loc>)
    ensures r.Some? ==> ValidLoc(v, r.value)
    decreases Height(v)
  {
    if p == "" || p[0] != '/' then Some([])
    else
      var s := Step(v, p[1..], cs);
      if s.None? then None
      else
        var rest := Resolve(Child(v, s.value), SkipToken(p[1..]), cs);
        assert rest.Some? ==> ([s.value] + rest.value)[1..] == rest.value;
        Prefixed([s.value], rest)
  }

  /** The walk along the members of an object. */
  method FirstMatch(ms: seq<Member>, p: string, cs: bool) returns (i: nat)
    requires NulFree(p) && forall k :: 0 <= k < |ms| ==> NulFree(ms[k].key)
    ensures i == MatchMember(ms, p, cs)
  {
    i := 0;
    while i < |ms|
      invariant 0 <= i <= MatchMember(ms, p, cs)
    {
      var matches := ComparePointers(ms[i].key, p, cs);
      if matches {
        return;
      }
      i := i + 1;
    }
  }

  predicate KeysNulFree(v: Json) {
    match v
    case Array(items) => forall i :: 0 <= i < |items| ==> KeysNulFree(items[i])
    case Object(ms) =>
      (forall i :: 0 <= i < |ms| ==> NulFree(ms[i].key)) && forall i :: 0 <= i < |ms| ==> KeysNulFree(ms[i].value)
    case _ => true
  }

  method GetItemFromPointer(root: Json, pointer: string, cs: bool) returns (r: Option<Loc>)
    requires NulFree(pointer) && KeysNulFree(root)
    ensures r == Resolve(root, pointer, cs)
  {
    var current, p := root, pointer;
    var loc: Loc := [];
    assert forall l: Loc :: [] + l == l;
    while p != "" && p[0] == '/'
      invariant NulFree(p) && KeysNulFree(current)
      invariant Resolve(root, pointer, cs) == Prefixed(loc, Resolve(current, p, cs))
      decreases |p|
    {
      ghost var before, at := p, loc;
      p := p[1..];
      match current {
        case Array(items) =>
          var ok, index := DecodeArrayIndex(p);
          if !ok || index >= |items| {
            return None;
          }
          current, loc := items[index], loc + [index];
        case Object(ms) =>
          var i := FirstMatch(ms, p, cs);
          if i == |ms| {
            return None;
          }
          current, loc := ms[i].value, loc + [i];
        case _ =>
          return None;
      }
      ghost var rest := SkipToken(p);
      while p != "" && p[0] != '/'
        invariant NulFree(p) && |p| < |before|
        invariant SkipToken(p) == rest
        decreases |p|
      {
        p := p[1..];
      }
      PrefixedAgain(at, loc[|at|], Resolve(current, p, cs));
    }
    assert loc + [] == loc;
    return Some(loc);
  }

  // ----- the pointer of a node

  predicate ValidLoc(v: Json, loc: Loc)
    decreases Height(v)
  {
    loc == [] || (loc[0] < ChildCount(v) && ValidLoc(Child(v, loc[0]), loc[1..]))
  }

  function Token(v: Json, i: nat): string
    requires i < ChildCount(v)
  {
    match v
    case Array(items) => Decimal(i)
    case Object(ms) => Encode(ms[i].key)
  }

  function PointerOf(v: Json, loc: Loc): string
    requires ValidLoc(v, loc)
    decreases Height(v)
  {
    if loc == [] then "" else "/" + Token(v, loc[0]) + PointerOf(Child(v, loc[0]), loc[1..])
  }

  /** `cJSONUtils_FindPointerFromObjectTo`: the search visits every child in order. */
  function FindPointer(v: Json, here: Loc, target: Loc): Option<string>
    decreases Height(v), 1, 0
  {
    if here == target then Some("") else SearchChildren(v, 0, here, target)
  }

  function SearchChildren(v: Json, i: nat, here: Loc, target: Loc): Option<string>
    requires i <= ChildCount(v)
    decreases Height(v), 0, ChildCount(v) - i
  {
    if i == ChildCount(v) then None
    else
      var t := FindPointer(Child(v, i), here + [i], target);
      if t.Some? then Some("/" + Token(v, i) + t.value)
      else SearchChildren(v, i + 1, here, target)
  }

  lemma {:induction false} SearchMisses(v: Json, here: Loc, target: Loc)
    requires !(here <= target)
    ensures FindPointer(v, here, target) == None
    decreases Height(v), 1, 0
  {
    SearchChildrenMisses(v, 0, here, target);
  }

  lemma {:induction false} SearchChildrenMisses(v: Json, i: nat, here: Loc, target: Loc)
    requires i <= ChildCount(v) && !(here <= target)
    ensures SearchChildren(v, i, here, target) == None
    decreases Height(v), 0, ChildCount(v) - i
  {
    if i < ChildCount(v) {
      assert here <= here + [i];
      SearchMisses(Child(v, i), here + [i], target);
      SearchChildrenMisses(v, i + 1, here, target);
    }
  }

  lemma {:induction false} SearchFromLeft(v: Json, i: nat, here: Loc, target: Loc)
    requires here < target && target[|here|] < ChildCount(v) && i <= target[|here|]
    ensures SearchChildren(v, i, here, target) == SearchChildren(v, target[|here|], here, target)
    decreases target[|here|] - i
  {
    if i < target[|here|] {
      assert (here + [i])[|here|] != target[|here|];
      SearchMisses(Child(v, i), here + [i], target);
      SearchFromLeft(v, i + 1, here, target);
    }
  }

  /** The search finds every node of the tree and returns its pointer. */
  lemma {:induction false} FindPointerFinds(v: Json, here: Loc, loc: Loc)
    requires ValidLoc(v, loc)
    ensures FindPointer(v, here, here + loc) == Some(PointerOf(v, loc))
    decreases Height(v)
  {
    var target := here + loc;
    if loc == [] {
      assert target == here;
    } else {
      assert target[|here|] == loc[0] && |target| > |here|;
      SearchFromLeft(v, 0, here, target);
      assert here + [loc[0]] + loc[1..] == target;
      FindPointerFinds(Child(v, loc[0]), here + [loc[0]], loc[1..]);
    }
  }

  /** Array positions fit in a `size_t`. */
  predicate IndexesFit(v: Json) {
    match v
    case Array(items) => |items| <= SIZE_MODULUS && forall i :: 0 <= i < |items| ==> IndexesFit(items[i])
    case Object(ms) => forall i :: 0 <= i < |ms| ==> IndexesFit(ms[i].value)
    case _ => true
  }

  /** A written token selects the child it was written for. */
  lemma StepToken(v: Json, i: nat, rest: string, cs: bool)
    requires Distinct(v, cs) && IndexesFit(v) && i < ChildCount(v) && Rest(rest)
    ensures Step(v, Token(v, i) + rest, cs) == Some(i)
    ensures SkipToken(Token(v, i) + rest) == rest
  {
    match v
    case Array(items) =>
      DecodeIndexDecimal(i, rest);
      DecimalDigits(i);
      SkipTokenIs(Decimal(i), rest);
    case Object(ms) =>
      MatchMemberIsFind(ms, ms[i].key, rest, cs);
      FindIs(ms, ms[i].key, cs, i);
      EncodeNoSlash(ms[i].key);
      SkipTokenIs(Encode(ms[i].key), rest);
  }

  lemma {:induction false} PointerOfRest(v: Json, loc: Loc)
    requires ValidLoc(v, loc)
    ensures Rest(PointerOf(v, loc))
  {
  }

  lemma ResolveStep(v: Json, token: string, i: nat, rest: string, cs: bool)
    requires i < ChildCount(v) && Step(v, token + rest, cs) == Some(i) && SkipToken(token + rest) == rest
    ensures Resolve(v, "/" + token + rest, cs) == Prefixed([i], Resolve(Child(v, i), rest, cs))
  {
    assert ("/" + token + rest)[1..] == token + rest;
  }

  /** Resolving the pointer of a node gives back that node, whatever its keys contain. */
  lemma {:induction false} ResolvePointerOf(v: Json, loc: Loc, cs: bool)
    requires Distinct(v, cs) && IndexesFit(v) && ValidLoc(v, loc)
    ensures Resolve(v, PointerOf(v, loc), cs) == Some(loc)
    decreases Height(v)
  {
    if loc != [] {
      var c, rest := Child(v, loc[0]), PointerOf(Child(v, loc[0]), loc[1..]);
      PointerOfRest(c, loc[1..]);
      StepToken(v, loc[0], rest, cs);
      ResolvePointerOf(c, loc[1..], cs);
      ResolveStep(v, Token(v, loc[0]), loc[0], rest, cs);
      assert [loc[0]] + loc[1..] == loc;
    }
  }

  /** JSON Pointer round trip: find the pointer of a node, then get the node back from it. */
  lemma PointerRoundTrip(v: Json, loc: Loc, cs: bool)
    requires Distinct(v, cs) && IndexesFit(v) && ValidLoc(v, loc)
    ensures FindPointer(v, [], loc).Some?
    ensures Resolve(v, FindPointer(v, [], loc).value, cs) == Some(loc)
  {
    assert [] + loc == loc;
    FindPointerFinds(v, [], loc);
    ResolvePointerOf(v, loc, cs);
  }
}
