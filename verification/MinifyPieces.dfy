/**
 What minifying keeps: every text is a row of white space, comments, string literals, lone slashes and other
 characters, and the minified text is the string literals and the other characters.
 */
module MinifyPieces {
  import opened Minify

  /** The last three are cut off by the end of the text. */
  datatype Piece =
    | White(c: char)
    | Line(text: string)
    | Block(text: string)
    | Quoted(text: string)
    | Slash
    | Other(c: char)
    | OpenLine(text: string)
    | OpenBlock(text: string)
    | OpenQuoted(text: string)

  predicate Whole(p: Piece) {
    !p.OpenLine? && !p.OpenBlock? && !p.OpenQuoted?
  }

  predicate NoBlockEnd(t: string) {
    forall i :: 0 <= i < |t| - 1 ==> !(t[i] == '*' && t[i + 1] == '/')
  }

  /** Every quote in the text has a backslash in front of it. */
  predicate NoStringEnd(t: string) {
    forall i :: 0 <= i < |t| && t[i] == '"' ==> AfterBackslash(t, i)
  }

  predicate AfterBackslash(t: string, i: nat)
    requires i < |t|
  {
    i > 0 && t[i - 1] == '\\'
  }

  predicate LegalPiece(p: Piece) {
    match p
    case White(c) => c == ' ' || c == '\t' || c == '\r' || c == '\n'
    case Line(t) => '\n' !in t
    case Block(t) => NoBlockEnd(t)
    case Quoted(t) => NoStringEnd(t) && (t != "" ==> t[|t| - 1] != '\\')
    case Slash => true
    case Other(c) => c !in " \t\r\n/\""
    case OpenLine(t) => '\n' !in t
    case OpenBlock(t) => NoBlockEnd(t)
    case OpenQuoted(t) => NoStringEnd(t)
  }

  function PieceText(p: Piece): string {
    match p
    case White(c) => [c]
    case Line(t) => "//" + t + "\n"
    case Block(t) => "/*" + t + "*/"
    case Quoted(t) => "\"" + t + "\""
    case Slash => "/"
    case Other(c) => [c]
    case OpenLine(t) => "//" + t
    case OpenBlock(t) => "/*" + t
    case OpenQuoted(t) => "\"" + t
  }

  function Kept(p: Piece): string {
    if p.Quoted? || p.OpenQuoted? || p.Other? then PieceText(p) else ""
  }

  function TextOf(ps: seq<Piece>): string {
    if ps == [] then "" else PieceText(ps[0]) + TextOf(ps[1..])
  }

  function KeptOf(ps: seq<Piece>): string {
    if ps == [] then "" else Kept(ps[0]) + KeptOf(ps[1..])
  }

  /** What may come after a piece: nothing after one that is cut off, no comment after a lone slash. */
  predicate Before(p: Piece, rest: string) {
    && (!Whole(p) ==> rest == "")
    && (p.Slash? && rest != "" ==> rest[0] != '/' && rest[0] != '*')
  }

  /** Pieces that are in front of a text. */
  predicate Legal(ps: seq<Piece>, rest: string) {
    ps != [] ==> LegalPiece(ps[0]) && Before(ps[0], TextOf(ps[1..]) + rest) && Legal(ps[1..], rest)
  }

  // ----- each piece by itself

  lemma {:induction false} LineSkipped(t: string, rest: string)
    requires '\n' !in t
    ensures SkipLine(t + "\n" + rest) == rest && SkipLine(t) == ""
  {
    if t == "" {
      assert t + "\n" + rest == "\n" + rest;
      assert ("\n" + rest)[1..] == rest;
    } else {
      LineSkipped(t[1..], rest);
      assert (t + "\n" + rest)[1..] == t[1..] + "\n" + rest;
    }
  }

  lemma {:induction false} BlockSkipped(t: string, rest: string)
    requires NoBlockEnd(t)
    ensures SkipBlock(t + "*/" + rest) == rest && SkipBlock(t) == ""
  {
    if t == "" {
      assert t + "*/" + rest == "*/" + rest;
      assert ("*/" + rest)[2..] == rest;
    } else {
      BlockSkipped(t[1..], rest);
      var u := t + "*/" + rest;
      assert u[1..] == t[1..] + "*/" + rest;
      assert u[0] == t[0] && u[1] == if |t| > 1 then t[1] else '*';
    }
  }

  /** A literal ends at the first quote that no backslash precedes. */
  lemma {:induction false} QuotedCopied(t: string, rest: string)
    requires NoStringEnd(t)
    ensures StringLength(t) == |t|
    ensures (t == "" || t[|t| - 1] != '\\') ==> StringLength(t + "\"" + rest) == |t| + 1
    decreases |t|
  {
    var u := t + "\"" + rest;
    assert t != "" ==> t[0] != '"';
    assert |t| > 1 && t[1] == '"' ==> AfterBackslash(t, 1);
    if t == "" {
      assert u == "\"" + rest;
    } else if t[0] == '\\' && |t| > 1 && t[1] == '"' {
      assert NoStringEnd(t[2..]);
      QuotedCopied(t[2..], rest);
      assert u[2..] == t[2..] + "\"" + rest && u[0] == t[0] && u[1] == t[1];
    } else {
      assert NoStringEnd(t[1..]) by {
        assert forall i :: 0 <= i < |t| - 1 ==> t[1..][i] == t[i + 1];
      }
      QuotedCopied(t[1..], rest);
      assert u[1..] == t[1..] + "\"" + rest && u[0] == t[0];
      assert |t| > 1 ==> u[1] == t[1];
    }
  }

  lemma MinifiedIs(s: string)
    requires s != ""
    ensures Blank(s[0]) ==> Minified(s) == Minified(s[1..])
    ensures s[0] == '/' && |s| > 1 && s[1] == '/' ==> Minified(s) == Minified(SkipLine(s[2..]))
    ensures s[0] == '/' && |s| > 1 && s[1] == '*' ==> Minified(s) == Minified(SkipBlock(s[2..]))
    ensures s[0] == '/' && !(|s| > 1 && (s[1] == '/' || s[1] == '*')) ==> Minified(s) == Minified(s[1..])
    ensures s[0] == '"' ==> var n := 1 + StringLength(s[1..]); Minified(s) == s[..n] + Minified(s[n..])
    ensures !Blank(s[0]) && s[0] != '/' && s[0] != '"' ==> Minified(s) == [s[0]] + Minified(s[1..])
  {
  }

  lemma CharPiece(c: char, rest: string)
    ensures ([c] + rest)[0] == c && ([c] + rest)[1..] == rest
  {
  }

  lemma CommentPiece(open: string, t: string, close: string, rest: string)
    requires |open| == 2
    ensures var s := open + t + close + rest; |s| > 1 && s[0] == open[0] && s[1] == open[1] && s[2..] == t + close + rest
    ensures var s := open + t; |s| > 1 && s[0] == open[0] && s[1] == open[1] && s[2..] == t
  {
  }

  lemma QuotedPiece(t: string, rest: string)
    ensures var s := "\"" + t + "\"" + rest;
      && s[0] == '"' && s[1..] == t + "\"" + rest && s[..|t| + 2] == "\"" + t + "\"" && s[|t| + 2..] == rest
    ensures var s := "\"" + t; s[0] == '"' && s[1..] == t && s[..|t| + 1] == s && s[|t| + 1..] == ""
  {
  }

  /** One piece is kept or dropped, and minifying goes on after it. */
  lemma PieceMinified(p: Piece, rest: string)
    requires LegalPiece(p) && Before(p, rest)
    ensures Minified(PieceText(p) + rest) == Kept(p) + Minified(rest)
  {
    var s := PieceText(p) + rest;
    MinifiedIs(s);
    assert "" + Minified(rest) == Minified(rest);
    match p
    case White(c) => CharPiece(c, rest);
    case Line(t) =>
      CommentPiece("//", t, "\n", rest);
      LineSkipped(t, rest);
    case Block(t) =>
      CommentPiece("/*", t, "*/", rest);
      BlockSkipped(t, rest);
    case Quoted(t) =>
      QuotedPiece(t, rest);
      QuotedCopied(t, rest);
    case Slash => CharPiece('/', rest);
    case Other(c) => CharPiece(c, rest);
    case OpenLine(t) =>
      CommentPiece("//", t, "", rest);
      LineSkipped(t, "");
      assert s == PieceText(p);
    case OpenBlock(t) =>
      CommentPiece("/*", t, "", rest);
      BlockSkipped(t, "");
      assert s == PieceText(p);
    case OpenQuoted(t) =>
      QuotedPiece(t, "");
      QuotedCopied(t, "");
      assert s == PieceText(p);
  }

  lemma Joined(a: string, b: string, c: string)
    ensures a + b + c == a + (b + c)
  {
  }

  /** Minifying keeps string literals and single characters, and drops white space, comments and lone slashes. */
  lemma {:induction false} MinifyKeeps(ps: seq<Piece>, rest: string)
    requires Legal(ps, rest)
    ensures Minified(TextOf(ps) + rest) == KeptOf(ps) + Minified(rest)
  {
    if ps == [] {
      assert TextOf(ps) + rest == rest;
    } else {
      MinifyKeeps(ps[1..], rest);
      PieceMinified(ps[0], TextOf(ps[1..]) + rest);
      Joined(PieceText(ps[0]), TextOf(ps[1..]), rest);
      Joined(Kept(ps[0]), KeptOf(ps[1..]), Minified(rest));
    }
  }

  // ----- every text

  lemma {:induction false} SplitLine(u: string) returns (t: string)
    ensures '\n' !in t && (u == t + "\n" + SkipLine(u) || (u == t && SkipLine(u) == ""))
  {
    if u == "" || u[0] == '\n' {
      t := "";
      assert u != "" ==> u == [u[0]] + u[1..];
    } else {
      t := SplitLine(u[1..]);
      t := [u[0]] + t;
      assert u == [u[0]] + u[1..];
    }
  }

  lemma {:induction false} SplitBlock(u: string) returns (t: string)
    ensures NoBlockEnd(t) && (u == t + "*/" + SkipBlock(u) || (u == t && SkipBlock(u) == ""))
    ensures u != "" && t != "" ==> t[0] == u[0]
    ensures t == "" && u != "" ==> u[0] == '*'
  {
    if u == "" {
      t := "";
    } else if |u| > 1 && u[0] == '*' && u[1] == '/' {
      t := "";
      assert u == "*/" + u[2..];
    } else {
      var v := SplitBlock(u[1..]);
      t := [u[0]] + v;
      assert u == [u[0]] + u[1..];
      assert forall i :: 1 <= i < |t| ==> t[i] == v[i - 1];
      assert |t| > 1 ==> t[1] == u[1];
    }
  }

  /** The first `n` characters of `u` are a text and its closing quote, or they are all of `u`. */
  predicate Copied(u: string, n: nat, t: string)
    requires n <= |u|
  {
    && NoStringEnd(t)
    && ((u[..n] == t + "\"" && (t != "" ==> t[|t| - 1] != '\\')) || (u == t && n == |u|))
  }

  lemma {:induction false} SplitQuoted(u: string) returns (t: string)
    ensures Copied(u, StringLength(u), t)
    decreases |u|
  {
    if u == "" || u[0] == '"' {
      t := "";
      assert u != "" ==> u[..1] == "\"";
    } else {
      var k := if u[0] == '\\' && |u| > 1 && u[1] == '"' then 2 else 1;
      var v := SplitQuoted(u[k..]);
      t := u[..k] + v;
      NoEndConcat(u[..k], v);
      QuotedFront(u, k, StringLength(u[k..]), v);
    }
  }

  lemma NoEndConcat(a: string, v: string)
    requires NoStringEnd(a) && NoStringEnd(v)
    ensures NoStringEnd(a + v)
  {
    var t := a + v;
    forall i | 0 <= i < |t| && t[i] == '"' ensures AfterBackslash(t, i) {
      if i < |a| {
        assert a[i] == '"';
        assert AfterBackslash(a, i);
      } else {
        assert v[i - |a|] == '"';
        assert AfterBackslash(v, i - |a|);
      }
    }
  }

  lemma QuotedFront(u: string, k: nat, m: nat, v: string)
    requires 0 < k <= |u| && m <= |u| - k && Copied(u[k..], m, v) && NoStringEnd(u[..k] + v)
    requires u[k - 1] == '\\' && k < |u| ==> u[k] != '"'
    ensures Copied(u, k + m, u[..k] + v)
  {
    if u[k..][..m] == v + "\"" && (v != "" ==> v[|v| - 1] != '\\') {
      FrontText(u, k, m, v);
      LastFront(u, k, m, v);
    } else {
      assert u == u[..k] + u[k..];
    }
  }

  lemma LastFront(u: string, k: nat, m: nat, v: string)
    requires 0 < k <= |u| && m <= |u| - k && u[k..][..m] == v + "\"" && (v != "" ==> v[|v| - 1] != '\\')
    requires u[k - 1] == '\\' && k < |u| ==> u[k] != '"'
    ensures var t := u[..k] + v; t[|t| - 1] != '\\'
  {
    if v == "" {
      assert u[k] == u[k..][..m][0];
    }
  }

  lemma FrontText(u: string, k: nat, m: nat, v: string)
    requires k <= |u| && m <= |u| - k && u[k..][..m] == v + "\""
    ensures u[..k + m] == u[..k] + v + "\""
  {
    assert u[..k + m] == u[..k] + u[k..][..m];
  }

  /** The piece in front of a text, and what comes after it. */
  lemma FirstPiece(s: string) returns (p: Piece, rest: string)
    requires s != ""
    ensures LegalPiece(p) && Before(p, rest) && s == PieceText(p) + rest && |rest| < |s|
  {
    assert s == [s[0]] + s[1..];
    p, rest := Other(s[0]), s[1..];
    if Blank(s[0]) {
      p := White(s[0]);
    } else if s[0] == '/' {
      p := Slash;
      if |s| > 1 && (s[1] == '/' || s[1] == '*') {
        p, rest := FirstComment(s);
      }
    } else if s[0] == '"' {
      p, rest := FirstQuoted(s);
    }
  }

  lemma FirstComment(s: string) returns (p: Piece, rest: string)
    requires |s| > 1 && s[0] == '/' && (s[1] == '/' || s[1] == '*')
    ensures LegalPiece(p) && Before(p, rest) && s == PieceText(p) + rest && |rest| < |s|
  {
    var u := s[2..];
    assert s == [s[0], s[1]] + u;
    if s[1] == '/' {
      var t := SplitLine(u);
      rest := SkipLine(u);
      p := if u == t + "\n" + rest then Line(t) else OpenLine(t);
    } else {
      var t := SplitBlock(u);
      rest := SkipBlock(u);
      p := if u == t + "*/" + rest then Block(t) else OpenBlock(t);
    }
  }

  lemma FirstQuoted(s: string) returns (p: Piece, rest: string)
    requires s != "" && s[0] == '"'
    ensures LegalPiece(p) && Before(p, rest) && s == PieceText(p) + rest && |rest| < |s|
  {
    var u := s[1..];
    var n := StringLength(u);
    var t := SplitQuoted(u);
    rest := u[n..];
    assert s == [s[0]] + u && u == u[..n] + rest;
    p := if u[..n] == t + "\"" && (t != "" ==> t[|t| - 1] != '\\') then Quoted(t) else OpenQuoted(t);
  }

  /** Every text is a row of pieces, so that the minified text of anything is known. */
  lemma {:induction false} Pieces(s: string) returns (ps: seq<Piece>)
    ensures Legal(ps, "") && TextOf(ps) == s && Minified(s) == KeptOf(ps)
    decreases |s|
  {
    if s == "" {
      ps := [];
    } else {
      var p, rest := FirstPiece(s);
      var more := Pieces(rest);
      ps := [p] + more;
      assert ps[1..] == more;
      assert TextOf(more) + "" == rest;
      PieceMinified(p, rest);
    }
  }
}
