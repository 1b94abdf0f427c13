/**
 Where a pointer leads, for every pointer: token by token, to the child each token names, or nowhere.
 */
module PointerLaws {
  import opened CString
  import opened Json
  import opened Pointer
  import opened PointerDecode

  // ----- matching

  /** The token is the encoding of a key that counts as the same key. */
  ghost predicate EncodesSame(name: string, token: string, cs: bool) {
    exists k :: Encode(k) == token && Key(k, cs) == Key(name, cs)
  }

  lemma {:induction false} EncodeCons(c: char, k: string)
    ensures Encode([c] + k) == EncodeChar(c) + Encode(k)
  {
    assert ([c] + k)[1..] == k;
  }

  /** The key that a matching token encodes. */
  lemma {:induction false} EncodedBy(name: string, token: string, rest: string, cs: bool) returns (k: string)
    requires '/' !in token && Rest(rest) && TokenMatches(name, token + rest, cs)
    ensures Encode(k) == token && Key(k, cs) == Key(name, cs)
    decreases |name|
  {
    var p := token + rest;
    if token == "" {
      assert p == rest;
      k := "";
    } else {
      assert p[0] == token[0] && token[0] in token;
      var n := if token[0] == '~' then 2 else 1;
      var c := if token[0] != '~' then token[0] else if At(p, 1) == '0' then '~' else '/';
      assert name != "";
      TildePair(token, rest);
      assert p[n..] == token[n..] + rest;
      var more := EncodedBy(name[1..], token[n..], rest, cs);
      k := [c] + more;
      EncodeCons(c, more);
      assert token == token[..n] + token[n..];
      assert token[..n] == EncodeChar(c);
      KeyUnfold(k, name, cs);
      assert k[1..] == more;
    }
  }

  lemma {:induction false} TildePair(token: string, rest: string)
    requires Rest(rest) && token != ""
    ensures var p := token + rest;
      token[0] == '~' && (At(p, 1) == '0' || At(p, 1) == '1') ==> |token| > 1 && token[1] == At(p, 1)
  {
  }

  /** A token matches exactly the keys it is the encoding of, in the chosen mode; a malformed one matches none. */
  lemma {:induction false} TokenMatchesExactly(name: string, token: string, rest: string, cs: bool)
    requires '/' !in token && Rest(rest)
    ensures TokenMatches(name, token + rest, cs) <==> EncodesSame(name, token, cs)
  {
    if TokenMatches(name, token + rest, cs) {
      var k := EncodedBy(name, token, rest, cs);
    }
    if EncodesSame(name, token, cs) {
      var k :| Encode(k) == token && Key(k, cs) == Key(name, cs);
      TokenMatchesEncoded(name, k, rest, cs);
    }
  }

  // ----- resolving

  /** The child a token names: an element by its index, or the first member with the key. */
  ghost predicate NamesChild(v: Json, token: string, i: nat, cs: bool) {
    i < ChildCount(v) &&
    match v
    case Array(_) => DecodeIndex(token) == Some(i)
    case Object(ms) =>
      EncodesSame(ms[i].key, token, cs) && forall j :: 0 <= j < i ==> !EncodesSame(ms[j].key, token, cs)
  }

  /** From `v` the tokens lead to the place `loc`. */
  ghost predicate Leads(v: Json, tokens: seq<string>, loc: Loc, cs: bool)
    decreases |tokens|
  {
    |tokens| == |loc| &&
    (tokens != [] ==>
       NamesChild(v, tokens[0], loc[0], cs) && Leads(Child(v, loc[0]), tokens[1..], loc[1..], cs))
  }

  function PointerText(tokens: seq<string>): string {
    if tokens == [] then "" else "/" + tokens[0] + PointerText(tokens[1..])
  }

  /** Every pointer is a list of tokens. */
  lemma {:induction false} TokensOf(p: string) returns (tokens: seq<string>)
    requires Rest(p)
    ensures PointerText(tokens) == p && forall t :: t in tokens ==> '/' !in t
    decreases |p|
  {
    if p == "" {
      tokens := [];
    } else {
      var t, rest := FirstToken(p[1..]);
      var more := TokensOf(rest);
      tokens := [t] + more;
      assert tokens[1..] == more;
      assert p == "/" + t + rest by {
        assert p == [p[0]] + p[1..];
      }
    }
  }

  lemma {:induction false} FirstToken(p: string) returns (t: string, rest: string)
    ensures p == t + rest && '/' !in t && Rest(rest)
  {
    if Rest(p) {
      t, rest := "", p;
    } else {
      t, rest := FirstToken(p[1..]);
      t := [p[0]] + t;
      assert p == [p[0]] + p[1..];
    }
  }

  lemma {:induction false} TextRest(tokens: seq<string>)
    ensures Rest(PointerText(tokens))
  {
  }

  lemma {:induction false} IndexOfToken(token: string, rest: string)
    requires Rest(rest)
    ensures DecodeIndex(token + rest) == DecodeIndex(token)
  {
    var p := token + rest;
    RunOfToken(token, rest);
    var k := RunLength(token);
    assert token == "" ==> p == rest;
    assert p[..k] == token[..k];
    SameEnd(token, rest, 1);
    SameEnd(token, rest, k);
  }

  lemma {:induction false} SameEnd(token: string, rest: string, k: nat)
    requires Rest(rest)
    ensures k <= |token| ==> TokenEnd(At(token + rest, k)) == TokenEnd(At(token, k))
  {
  }

  lemma {:induction false} RunOfToken(token: string, rest: string)
    requires Rest(rest)
    ensures HighPrefix(token + rest) == HighPrefix(token)
    ensures token != "" ==> At(token + rest, 0) == At(token, 0)
  {
    if token == "" {
      assert token + rest == rest;
    } else {
      RunOfToken(token[1..], rest);
      assert (token + rest)[1..] == token[1..] + rest;
    }
  }

  lemma {:induction false} StepNames(v: Json, token: string, rest: string, cs: bool)
    requires '/' !in token && Rest(rest)
    ensures forall i: nat :: Step(v, token + rest, cs) == Some(i) <==> NamesChild(v, token, i, cs)
  {
    match v
    case Array(items) => IndexOfToken(token, rest);
    case Object(ms) =>
      forall i | 0 <= i < |ms| ensures TokenMatches(ms[i].key, token + rest, cs) <==> EncodesSame(ms[i].key, token, cs) {
        TokenMatchesExactly(ms[i].key, token, rest, cs);
      }
      var first := MatchMember(ms, token + rest, cs);
      assert first < |ms| ==> EncodesSame(ms[first].key, token, cs);
    case _ =>
  }

  /** A pointer resolves to a place exactly if its tokens lead there. */
  lemma {:induction false} ResolveLeads(v: Json, tokens: seq<string>, loc: Loc, cs: bool)
    requires forall t :: t in tokens ==> '/' !in t
    ensures Resolve(v, PointerText(tokens), cs) == Some(loc) <==> Leads(v, tokens, loc, cs)
    decreases |tokens|
  {
    if tokens != [] {
      var t, rest := tokens[0], PointerText(tokens[1..]);
      assert t in tokens;
      TextRest(tokens[1..]);
      SkipTokenIs(t, rest);
      StepNames(v, t, rest, cs);
      var p := PointerText(tokens);
      assert p[1..] == t + rest;
      var s := Step(v, t + rest, cs);
      if loc != [] {
        if NamesChild(v, t, loc[0], cs) {
          ResolveLeads(Child(v, loc[0]), tokens[1..], loc[1..], cs);
        }
        assert loc == [loc[0]] + loc[1..];
      }
      ResolveFirst(v, p, s, loc, cs);
    }
  }

  lemma {:induction false} ResolveFirst(v: Json, p: string, s: Option<nat>, loc: Loc, cs: bool)
    requires p != "" && p[0] == '/' && Step(v, p[1..], cs) == s
    ensures Resolve(v, p, cs) == Some(loc) <==>
            loc != [] && s == Some(loc[0]) && Resolve(Child(v, loc[0]), SkipToken(p[1..]), cs) == Some(loc[1..])
  {
    if loc != [] {
      assert loc == [loc[0]] + loc[1..];
    }
    if s.Some? {
      var rest := Resolve(Child(v, s.value), SkipToken(p[1..]), cs);
      if rest.Some? {
        assert ([s.value] + rest.value)[1..] == rest.value;
      }
    }
  }

  /** A text that is no pointer leads nowhere else than to the root. */
  lemma {:induction false} NoPointerIsRoot(v: Json, p: string, cs: bool)
    requires !Rest(p)
    ensures Resolve(v, p, cs) == Some([])
  {
  }

  // ----- decoding a malformed token

  /** A token whose first tilde is followed by neither 0 nor 1 is left as it is. */
  lemma {:induction false} MalformedKept(a: string, t: string)
    requires '~' !in a && (t != "" ==> t[0] != '0' && t[0] != '1')
    ensures DecodeInPlace(a + "~" + t) == a + "~" + t
  {
    RunToTilde(a + "~" + t, 0, |a|);
  }

  lemma {:induction false} RunToTilde(buf: string, s: nat, k: nat)
    requires s <= k < |buf| && buf[k] == '~' && (forall i :: s <= i < k ==> buf[i] != '~')
    requires k + 1 < |buf| ==> buf[k + 1] != '0' && buf[k + 1] != '1'
    ensures DecodeRun(buf, s, s) == buf
    decreases k - s
  {
    if s < k {
      RunToTilde(buf, s + 1, k);
    }
  }
}
