/**
 `cJSON_Minify`: dropping white space and comments in place.
 */
module Minify {
  import opened CString

  // ----- the function

  predicate Blank(c: char) {
    c == ' ' || c == '\t' || c == '\r' || c == '\n'
  }

  /** `skip_oneline_comment`, after the slashes. */
  function SkipLine(s: string): (r: string)
    ensures |r| <= |s|
  {
    if s == "" then "" else if s[0] == '\n' then s[1..] else SkipLine(s[1..])
  }

  /** `skip_multiline_comment`, after its opening. */
  function SkipBlock(s: string): (r: string)
    ensures |r| <= |s|
  {
    if s == "" then "" else if s[0] == '*' && At(s, 1) == '/' && |s| > 1 then s[2..] else SkipBlock(s[1..])
  }

  /** How much `minify_string` copies after the opening quote: any backslash before a quote escapes it. */
  function StringLength(t: string): (n: nat)
    ensures n <= |t|
    decreases |t|
  {
    if t == "" then 0
    else if t[0] == '"' then 1
    else if t[0] == '\\' && |t| > 1 && t[1] == '"' then 2 + StringLength(t[2..])
    else 1 + StringLength(t[1..])
  }

  function Minified(s: string): (r: string)
    ensures |r| <= |s|
    decreases |s|
  {
    if s == "" then ""
    else if Blank(s[0]) then Minified(s[1..])
    else if s[0] == '/' then
      if |s| > 1 && s[1] == '/' then Minified(SkipLine(s[2..]))
      else if |s| > 1 && s[1] == '*' then Minified(SkipBlock(s[2..]))
      else Minified(s[1..])
    else if s[0] == '"' then
      var n := 1 + StringLength(s[1..]);
      s[..n] + Minified(s[n..])
    else [s[0]] + Minified(s[1..])
  }

  // ----- the code, on a buffer

  /** From `pos` on the buffer still holds the original text and its terminator. */
  ghost predicate Unread(a: array<char>, pos: nat, text: string)
    reads a
  {
    && pos <= |text| < a.Length && a[|text|] == NUL && NulFree(text)
    && forall k :: pos <= k < |text| ==> a[k] == text[k]
  }

  method SkipOneLineComment(a: array<char>, pos: nat, ghost text: string) returns (next: nat)
    requires Unread(a, pos, text) && pos + 2 <= |text|
    ensures pos + 2 <= next <= |text| && text[next..] == SkipLine(text[pos + 2..])
  {
    next := pos + 2;
    while a[next] != NUL
      invariant pos + 2 <= next <= |text|
      invariant SkipLine(text[next..]) == SkipLine(text[pos + 2..])
      decreases |text| - next
    {
      assert text[next..][1..] == text[next + 1..];
      if a[next] == '\n' {
        next := next + 1;
        return;
      }
      next := next + 1;
    }
  }

  method SkipMultiLineComment(a: array<char>, pos: nat, ghost text: string) returns (next: nat)
    requires Unread(a, pos, text) && pos + 2 <= |text|
    ensures pos + 2 <= next <= |text| && text[next..] == SkipBlock(text[pos + 2..])
  {
    next := pos + 2;
    while a[next] != NUL
      invariant pos + 2 <= next <= |text|
      invariant SkipBlock(text[next..]) == SkipBlock(text[pos + 2..])
      decreases |text| - next
    {
      BlockStep(text, next);
      if a[next] == '*' && a[next + 1] == '/' {
        next := next + 2;
        return;
      }
      next := next + 1;
    }
  }

  lemma BlockStep(text: string, i: nat)
    requires i < |text|
    ensures SkipBlock(text[i..]) ==
            if text[i] == '*' && i + 1 < |text| && text[i + 1] == '/' then text[i + 2..] else SkipBlock(text[i + 1..])
  {
    var t := text[i..];
    assert t[1..] == text[i + 1..];
    assert |t| > 1 ==> t[1] == text[i + 1] && t[2..] == text[i + 2..];
  }

  lemma StringStep(text: string, i: nat)
    requires i < |text|
    ensures StringLength(text[i..]) ==
            if text[i] == '"' then 1
            else if text[i] == '\\' && i + 1 < |text| && text[i + 1] == '"' then 2 + StringLength(text[i + 2..])
            else 1 + StringLength(text[i + 1..])
  {
    var t := text[i..];
    assert t[1..] == text[i + 1..];
    assert |t| > 1 ==> t[1] == text[i + 1] && t[2..] == text[i + 2..];
  }

  /** Copying one character forward. */
  method Put(a: array<char>, into: nat, c: char)
    requires into < a.Length
    modifies a
    ensures a[..into + 1] == old(a[..into]) + [c]
    ensures forall k :: into < k < a.Length ==> a[k] == old(a[k])
  {
    a[into] := c;
  }

  /** One round of the loop of `minify_string`: one character, or a backslash with its quote. */
  method StringRound(a: array<char>, pos: nat, into: nat, ghost text: string) returns (next: nat, closed: bool)
    requires Unread(a, pos, text) && into <= pos < |text|
    modifies a
    ensures pos < next <= |text| && Unread(a, next, text)
    ensures a[..into + (next - pos)] == old(a[..into]) + text[pos..next]
    ensures closed ==> StringLength(text[pos..]) == next - pos
    ensures !closed ==> StringLength(text[pos..]) == next - pos + StringLength(text[next..])
  {
    StringStep(text, pos);
    var c, d := a[pos], a[pos + 1];
    Put(a, into, c);
    next, closed := pos + 1, c == '"';
    if c == '\\' && d == '"' {
      Put(a, into + 1, d);
      next := pos + 2;
      assert text[pos..next] == [c] + [d];
    } else {
      assert text[pos..next] == [c];
    }
  }

  /** `minify_string`: the write index stays behind the read index. */
  method MinifyString(a: array<char>, pos: nat, into: nat, ghost text: string) returns (next: nat, out: nat)
    requires Unread(a, pos, text) && into <= pos < |text| && text[pos] == '"'
    modifies a
    ensures next == pos + 1 + StringLength(text[pos + 1..]) <= |text|
    ensures out == into + (next - pos)
    ensures a[..out] == old(a[..into]) + text[pos..next]
    ensures Unread(a, next, text)
  {
    ghost var before := a[..into];
    Put(a, into, a[pos]);
    next, out := pos + 1, into + 1;
    assert text[pos..next] == [text[pos]];
    var closed := false;
    while !closed && a[next] != NUL
      invariant pos < next <= |text| && out == into + (next - pos)
      invariant Unread(a, next, text)
      invariant next - (pos + 1) + (if closed then 0 else StringLength(text[next..])) == StringLength(text[pos + 1..])
      invariant a[..out] == before + text[pos..next]
      decreases |text| - next
    {
      var k := next;
      next, closed := StringRound(a, k, out, text);
      out := out + (next - k);
      Joined(before, text, pos, k, next);
    }
  }

  lemma Joined(before: string, text: string, i: nat, j: nat, k: nat)
    requires i <= j <= k <= |text|
    ensures before + text[i..j] + text[j..k] == before + text[i..k]
  {
    assert text[i..j] + text[j..k] == text[i..k];
  }

  /** What one round of the main loop has to do. */
  lemma MinifyStep(text: string, pos: nat)
    requires pos < |text|
    ensures var c, s := text[pos], Minified(text[pos..]);
            var slash := c == '/' && pos + 1 < |text|;
            s == if Blank(c) then Minified(text[pos + 1..])
                 else if slash && text[pos + 1] == '/' then Minified(SkipLine(text[pos + 2..]))
                 else if slash && text[pos + 1] == '*' then Minified(SkipBlock(text[pos + 2..]))
                 else if c == '/' then Minified(text[pos + 1..])
                 else if c == '"' then
                   var next := pos + 1 + StringLength(text[pos + 1..]);
                   text[pos..next] + Minified(text[next..])
                 else [c] + Minified(text[pos + 1..])
  {
    var t := text[pos..];
    assert t[1..] == text[pos + 1..];
    assert |t| > 1 ==> t[1] == text[pos + 1] && t[2..] == text[pos + 2..];
    if t[0] == '"' {
      var n := 1 + StringLength(t[1..]);
      assert t[..n] == text[pos..pos + n] && t[n..] == text[pos + n..];
    }
  }

  /** In place: the write index never passes the read index, and the buffer is left terminated. */
  method MinifyInPlace(a: array<char>, ghost text: string)
    requires Unread(a, 0, text)
    modifies a
    ensures var r := Minified(text);
            |r| <= |text| && a[..|r|] == r && a[|r|] == NUL
  {
    var pos, into := 0, 0;
    assert text[0..] == text;
    while a[pos] != NUL
      invariant 0 <= into <= pos <= |text|
      invariant Unread(a, pos, text)
      invariant a[..into] + Minified(text[pos..]) == Minified(text)
      decreases |text| - pos
    {
      pos, into := MinifyRound(a, pos, into, text);
    }
    assert a[..into] + "" == a[..into];
    a[into] := NUL;
  }

  /** The `switch` of the main loop. */
  method MinifyRound(a: array<char>, pos: nat, into: nat, ghost text: string) returns (next: nat, out: nat)
    requires Unread(a, pos, text) && into <= pos < |text|
    modifies a
    ensures pos < next <= |text| && out <= next && Unread(a, next, text)
    ensures a[..out] + Minified(text[next..]) == old(a[..into]) + Minified(text[pos..])
  {
    ghost var before := a[..into];
    MinifyStep(text, pos);
    next, out := pos + 1, into;
    var c, d := a[pos], a[pos + 1];
    if c == ' ' || c == '\t' || c == '\r' || c == '\n' {
    } else if c == '/' {
      if d == '/' {
        next := SkipOneLineComment(a, pos, text);
      } else if d == '*' {
        next := SkipMultiLineComment(a, pos, text);
      }
    } else if c == '"' {
      next, out := MinifyString(a, pos, into, text);
      Regroup(before, text[pos..next], Minified(text[next..]));
    } else {
      Put(a, into, c);
      out := into + 1;
      Regroup(before, [c], Minified(text[next..]));
    }
  }

  lemma Regroup(a: string, b: string, c: string)
    ensures a + b + c == a + (b + c)
  {
  }
}
