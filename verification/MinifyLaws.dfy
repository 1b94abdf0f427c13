/**
 What minifying does: it is idempotent on every text, and it takes the formatted text of a tree in which no
 string and no key ends in a backslash to the unformatted text, in any surroundings.
 */
module MinifyLaws {
  import opened Json
  import opened Pointer
  import opened Unicode
  import opened JsonText
  import opened ParsePrint
  import opened Minify

  // ----- idempotence

  /** The string literal ended at a quote, not at the end of the text. */
  predicate Terminated(t: string)
    decreases |t|
  {
    if t == "" then false
    else if t[0] == '"' then true
    else if t[0] == '\\' && |t| > 1 && t[1] == '"' then Terminated(t[2..])
    else Terminated(t[1..])
  }

  lemma {:induction false} UnterminatedIsAll(t: string)
    requires !Terminated(t)
    ensures StringLength(t) == |t|
    decreases |t|
  {
    if t != "" {
      if t[0] == '\\' && |t| > 1 && t[1] == '"' {
        UnterminatedIsAll(t[2..]);
      } else {
        UnterminatedIsAll(t[1..]);
      }
    }
  }

  /** A copied string literal is read again as the same literal. */
  lemma {:induction false} StringAgain(t: string, x: string)
    requires Terminated(t)
    ensures StringLength(t[..StringLength(t)] + x) == StringLength(t)
    decreases |t|
  {
    var n := StringLength(t);
    var u := t[..n] + x;
    if t[0] == '"' {
      assert u[0] == '"';
    } else if t[0] == '\\' && |t| > 1 && t[1] == '"' {
      StringAgain(t[2..], x);
      AgainText(t, n, 2, x);
    } else {
      StringAgain(t[1..], x);
      AgainText(t, n, 1, x);
      if t[0] == '\\' && |u| > 1 && u[1] == '"' {
        AfterBackslash(t);
      }
    }
  }

  lemma AgainText(t: string, n: nat, k: nat, x: string)
    requires k <= n <= |t| && k > 0
    ensures var u := t[..n] + x;
            |u| >= k && u[0] == t[0] && (k > 1 ==> u[1] == t[1]) && u[k..] == t[k..][..n - k] + x
            && (n > 1 ==> u[1] == t[1])
  {
  }

  lemma AfterBackslash(t: string)
    requires Terminated(t) && t[0] == '\\'
    ensures StringLength(t) > 1
  {
  }

  lemma MinifiedString(s: string)
    requires s != "" && s[0] == '"'
    ensures Minified(s) == s[..1 + StringLength(s[1..])] + Minified(s[1 + StringLength(s[1..])..])
  {
  }

  lemma QuoteAgain(s: string)
    requires s != "" && s[0] == '"'
    requires var rest := s[1 + StringLength(s[1..])..]; Minified(Minified(rest)) == Minified(rest)
    ensures Minified(Minified(s)) == Minified(s)
  {
    var t := s[1..];
    var n := 1 + StringLength(t);
    var x := Minified(s[n..]);
    var m := s[..n] + x;
    if Terminated(t) {
      StringAgain(t, x);
      QuoteText(s, n, x);
    } else {
      UnterminatedIsAll(t);
      assert n == |s| && s[n..] == "" && x == "" && m == s;
      assert s[..n] == s;
    }
    MinifiedString(m);
  }

  lemma QuoteText(s: string, n: nat, x: string)
    requires 1 <= n <= |s|
    ensures var m := s[..n] + x;
            && m != "" && m[0] == s[0] && m[1..] == s[1..][..n - 1] + x && m[..n] == s[..n] && m[n..] == x
  {
  }

  lemma OtherAgain(c: char, x: string)
    requires !Blank(c) && c != '/' && c != '"'
    ensures Minified([c] + x) == [c] + Minified(x)
  {
    assert ([c] + x)[1..] == x;
  }

  /** Minifying twice is minifying once, on every text. */
  lemma {:induction false} MinifyIdempotent(s: string)
    ensures Minified(Minified(s)) == Minified(s)
    decreases |s|
  {
    if s != "" {
      if Blank(s[0]) {
        MinifyIdempotent(s[1..]);
      } else if s[0] == '/' {
        if |s| > 1 && s[1] == '/' {
          MinifyIdempotent(SkipLine(s[2..]));
        } else if |s| > 1 && s[1] == '*' {
          MinifyIdempotent(SkipBlock(s[2..]));
        } else {
          MinifyIdempotent(s[1..]);
        }
      } else if s[0] == '"' {
        MinifyIdempotent(s[1 + StringLength(s[1..])..]);
        QuoteAgain(s);
      } else {
        MinifyIdempotent(s[1..]);
        OtherAgain(s[0], Minified(s[1..]));
      }
    }
  }

  // ----- minifying printed text

  predicate NoBackslashEnd(s: string) {
    s == "" || s[|s| - 1] != '\\'
  }

  /** No string and no key ends in a backslash. */
  predicate NoBackslashEnds(v: Json) {
    match v
    case Str(s) => NoBackslashEnd(s)
    case Array(items) => forall x :: x in items ==> NoBackslashEnds(x)
    case Object(ms) => forall m :: m in ms ==> NoBackslashEnd(m.key) && NoBackslashEnds(m.value)
    case _ => true
  }

  lemma StringOne(c: char, x: string)
    requires c != '"' && !(c == '\\' && x != "" && x[0] == '"')
    ensures StringLength([c] + x) == 1 + StringLength(x)
  {
    assert ([c] + x)[1..] == x;
  }

  lemma StringEscapedQuote(x: string)
    ensures StringLength("\\\"" + x) == 2 + StringLength(x)
  {
    assert ("\\\"" + x)[2..] == x;
  }

  /** Plain characters after a backslash that is not before a quote. */
  lemma {:induction false} StringPlain(a: string, x: string)
    requires '"' !in a && '\\' !in a
    ensures StringLength(a + x) == |a| + StringLength(x)
  {
    if a == "" {
      assert a + x == x;
    } else {
      StringPlain(a[1..], x);
      StringOne(a[0], a[1..] + x);
      assert a + x == [a[0]] + (a[1..] + x);
    }
  }

  /** One escaped character, when what follows does not start with a quote. */
  lemma StringChar(c: char, x: string)
    requires c == '\\' ==> x != "" && x[0] != '"'
    ensures StringLength(EscapeChar(c) + x) == |EscapeChar(c)| + StringLength(x)
  {
    if c == '"' {
      StringEscapedQuote(x);
    } else if c == '\\' {
      StringBackslash(x);
    } else if c < ' ' {
      StringControl(c, x);
    } else {
      StringOne(c, x);
    }
  }

  lemma StringBackslash(x: string)
    requires x != "" && x[0] != '"'
    ensures StringLength("\\\\" + x) == 2 + StringLength(x)
  {
    StringOne('\\', x);
    StringOne('\\', "\\" + x);
    assert "\\\\" + x == ['\\'] + ("\\" + x);
  }

  lemma StringControl(c: char, x: string)
    requires c < ' '
    ensures StringLength(EscapeChar(c) + x) == |EscapeChar(c)| + StringLength(x)
  {
    var e := EscapeChar(c);
    var plain := e[1..];
    if Control(c) {
      HexPlain(c as int);
      assert plain == "u" + Hex4(c as int);
    }
    StringPlain(plain, x);
    StringOne('\\', plain + x);
    EscapeText(e, x);
  }

  lemma EscapeText(e: string, x: string)
    requires e != "" && e[0] == '\\'
    ensures e + x == ['\\'] + (e[1..] + x)
  {
  }

  lemma EscapeStarts(s: string, x: string)
    requires s != ""
    ensures Escape(s) + x != "" && (Escape(s) + x)[0] != '"'
  {
    assert (Escape(s) + x)[0] == EscapeChar(s[0])[0];
  }

  lemma {:induction false} StringEscape(s: string, x: string)
    requires NoBackslashEnd(s)
    ensures StringLength(Escape(s) + ("\"" + x)) == |Escape(s)| + 1
  {
    if s == "" {
      assert Escape(s) + ("\"" + x) == "\"" + x;
    } else {
      var rest := Escape(s[1..]) + ("\"" + x);
      StringEscape(s[1..], x);
      if s[0] == '\\' {
        EscapeStarts(s[1..], "\"" + x);
      }
      StringChar(s[0], rest);
      Associative(EscapeChar(s[0]), Escape(s[1..]), "\"" + x);
    }
  }

  /** A printed string passes through unchanged. */
  lemma MinifyQuote(s: string, x: string)
    requires NoBackslashEnd(s)
    ensures Minified(Quote(s) + x) == Quote(s) + Minified(x)
  {
    StringEscape(s, x);
    QuoteParts(Escape(s), x);
    MinifiedString(Quote(s) + x);
  }

  lemma QuoteParts(e: string, x: string)
    ensures var q := "\"" + e + "\"";
            && (q + x)[0] == '"' && (q + x)[1..] == e + ("\"" + x)
            && (q + x)[..|e| + 2] == q && (q + x)[|e| + 2..] == x
  {
  }

  predicate Ordinary(c: char) {
    !Blank(c) && c != '/' && c != '"'
  }

  lemma {:induction false} MinifyOrdinary(a: string, x: string)
    requires forall i :: 0 <= i < |a| ==> Ordinary(a[i])
    ensures Minified(a + x) == a + Minified(x)
  {
    if a == "" {
      assert a + x == x;
    } else {
      MinifyOrdinary(a[1..], x);
      OtherAgain(a[0], a[1..] + x);
      assert a + x == [a[0]] + (a[1..] + x);
    }
  }

  lemma {:induction false} MinifyBlank(w: string, x: string)
    requires forall i :: 0 <= i < |w| ==> Blank(w[i])
    ensures Minified(w + x) == Minified(x)
  {
    if w == "" {
      assert w + x == x;
    } else {
      MinifyBlank(w[1..], x);
      assert (w + x)[1..] == w[1..] + x && (w + x)[0] == w[0];
    }
  }

  /** Formatted text followed by `x` minifies to unformatted text followed by minified `x`. */
  ghost predicate Minifies(formatted: string, plain: string) {
    forall x :: Minified(formatted + x) == plain + Minified(x)
  }

  lemma MinifiesConcat(a: string, p: string, b: string, q: string)
    requires Minifies(a, p) && Minifies(b, q)
    ensures Minifies(a + b, p + q)
  {
    forall x ensures Minified(a + b + x) == p + q + Minified(x) {
      Associative(a, b, x);
      assert Minified(a + (b + x)) == p + Minified(b + x);
      assert Minified(b + x) == q + Minified(x);
      Associative(p, q, Minified(x));
    }
  }

  lemma MinifiesOrdinary(a: string)
    requires forall i :: 0 <= i < |a| ==> Ordinary(a[i])
    ensures Minifies(a, a)
  {
    forall x ensures Minified(a + x) == a + Minified(x) {
      MinifyOrdinary(a, x);
    }
  }

  lemma MinifiesBlank(w: string)
    requires forall i :: 0 <= i < |w| ==> Blank(w[i])
    ensures Minifies(w, "")
  {
    forall x ensures Minified(w + x) == "" + Minified(x) {
      MinifyBlank(w, x);
      assert "" + Minified(x) == Minified(x);
    }
  }

  lemma MinifiesQuote(s: string)
    requires NoBackslashEnd(s)
    ensures Minifies(Quote(s), Quote(s))
  {
    forall x ensures Minified(Quote(s) + x) == Quote(s) + Minified(x) {
      MinifyQuote(s, x);
    }
  }

  lemma {:induction false} MinifiesValue(v: Json, depth: nat, d: nat)
    requires NoBackslashEnds(v)
    ensures Minifies(Print(v, true, depth), Print(v, false, d))
    decreases v, 1
  {
    match v
    case Null => MinifiesOrdinary("null");
    case False => MinifiesOrdinary("false");
    case True => MinifiesOrdinary("true");
    case Number(n) =>
      DecimalDigits(if n < 0 then -n else n);
      MinifiesOrdinary(PrintNumber(n));
    case Str(s) => MinifiesQuote(s);
    case Array(items) =>
      MinifiesItems(items, depth + 1, d + 1);
      MinifiesOrdinary("[");
      MinifiesOrdinary("]");
      MinifiesConcat("[", "[", PrintItems(items, true, depth + 1), PrintItems(items, false, d + 1));
      MinifiesConcat("[" + PrintItems(items, true, depth + 1), "[" + PrintItems(items, false, d + 1), "]", "]");
    case Object(ms) =>
      MinifiesMembers(ms, depth + 1, d + 1);
      MinifiesObject(PrintMembers(ms, true, depth + 1), PrintMembers(ms, false, d + 1), depth, d);
  }

  lemma MinifiesObject(a: string, p: string, depth: nat, d: nat)
    requires Minifies(a, p)
    ensures Minifies("{" + NewLine(true) + a + Indent(true, depth) + "}", "{" + NewLine(false) + p + Indent(false, d) + "}")
  {
    MinifiesOrdinary("{");
    MinifiesOrdinary("}");
    MinifiesBlank("\n");
    MinifiesBlank(Tabs(depth));
    MinifiesConcat("{", "{", "\n", "");
    MinifiesConcat("{" + "\n", "{" + "", a, p);
    MinifiesConcat("{" + "\n" + a, "{" + "" + p, Tabs(depth), "");
    MinifiesConcat("{" + "\n" + a + Tabs(depth), "{" + "" + p + "", "}", "}");
  }

  lemma {:induction false} MinifiesItems(items: seq<Json>, depth: nat, d: nat)
    requires forall x :: x in items ==> NoBackslashEnds(x)
    ensures Minifies(PrintItems(items, true, depth), PrintItems(items, false, d))
    decreases items, 0
  {
    if items == [] {
      MinifiesBlank("");
    } else {
      MinifiesValue(items[0], depth, d);
      if |items| > 1 {
        MinifiesItems(items[1..], depth, d);
        MinifiesSeparated(Print(items[0], true, depth), Print(items[0], false, d),
                          PrintItems(items[1..], true, depth), PrintItems(items[1..], false, d));
      }
    }
  }

  lemma MinifiesSeparated(a: string, p: string, b: string, q: string)
    requires Minifies(a, p) && Minifies(b, q)
    ensures Minifies(a + ("," + AfterComma(true)) + b, p + ("," + AfterComma(false)) + q)
  {
    MinifiesOrdinary(",");
    MinifiesBlank(" ");
    MinifiesConcat(",", ",", " ", "");
    MinifiesConcat(a, p, "," + " ", "," + "");
    MinifiesConcat(a + ("," + " "), p + ("," + ""), b, q);
  }

  lemma {:induction false} MinifiesMembers(ms: seq<Member>, depth: nat, d: nat)
    requires forall m :: m in ms ==> NoBackslashEnd(m.key) && NoBackslashEnds(m.value)
    ensures Minifies(PrintMembers(ms, true, depth), PrintMembers(ms, false, d))
    decreases ms, 0
  {
    if ms == [] {
      MinifiesBlank("");
    } else {
      var m, more := ms[0], ms[1..];
      MinifiesMembers(more, depth, d);
      MinifiesValue(m.value, depth, d);
      MinifiesMember(m, depth, d, |ms| > 1);
      MinifiesBlank(Tabs(depth));
      MinifiesConcat(Tabs(depth), "", PrintMember(m, true, depth, |ms| > 1), PrintMember(m, false, d, |ms| > 1));
      MinifiesConcat(Tabs(depth) + PrintMember(m, true, depth, |ms| > 1), "" + PrintMember(m, false, d, |ms| > 1),
                     PrintMembers(more, true, depth), PrintMembers(more, false, d));
    }
  }

  lemma MinifiesMember(m: Member, depth: nat, d: nat, more: bool)
    requires NoBackslashEnd(m.key) && Minifies(Print(m.value, true, depth), Print(m.value, false, d))
    ensures Minifies(PrintMember(m, true, depth, more), PrintMember(m, false, d, more))
  {
    var q, a, p := Quote(m.key), Print(m.value, true, depth), Print(m.value, false, d);
    MinifiesKey(m.key);
    MinifiesConcat(q + (":" + "\t"), q + (":" + ""), a, p);
    MinifiesEnd(q + (":" + "\t") + a, q + (":" + "") + p, if more then "," else "");
  }

  lemma MinifiesKey(key: string)
    requires NoBackslashEnd(key)
    ensures Minifies(Quote(key) + (":" + "\t"), Quote(key) + (":" + ""))
  {
    MinifiesQuote(key);
    MinifiesOrdinary(":");
    MinifiesBlank("\t");
    MinifiesConcat(":", ":", "\t", "");
    MinifiesConcat(Quote(key), Quote(key), ":" + "\t", ":" + "");
  }

  lemma MinifiesEnd(a: string, p: string, comma: string)
    requires Minifies(a, p) && (comma == "," || comma == "")
    ensures Minifies(a + comma + "\n", p + comma + "")
  {
    MinifiesOrdinary(comma);
    MinifiesBlank("\n");
    MinifiesConcat(a, p, comma, comma);
    MinifiesConcat(a + comma, p + comma, "\n", "");
  }
}
