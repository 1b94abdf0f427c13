/**
 Exactly when minifying formatted output gives the unformatted output. A string that ends in a backslash is not
 closed for `minify_string`, so what follows is copied as it is: that does no harm as long as only closing
 brackets follow.
 */
module MinifyExactly {
  import opened Json
  import opened Pointer
  import opened JsonText
  import opened ParsePrint
  import opened Minify
  import opened MinifyLaws

  /** Nothing but the brackets of arrays follows a string that ends in a backslash. */
  predicate Survives(v: Json) {
    match v
    case Str(_) => true
    case Array(items) =>
      items == [] ||
      ((forall i :: 0 <= i < |items| - 1 ==> NoBackslashEnds(items[i])) && Survives(items[|items| - 1]))
    case _ => NoBackslashEnds(v)
  }

  lemma {:induction false} NoneSurvives(v: Json)
    requires NoBackslashEnds(v)
    ensures Survives(v)
  {
    match v
    case Array(items) =>
      if items != [] {
        NoneSurvives(items[|items| - 1]);
      }
    case _ =>
  }

  /** Without its first element. */
  lemma SurvivesTail(items: seq<Json>)
    requires |items| > 1
    ensures Survives(Array(items)) <==> NoBackslashEnds(items[0]) && Survives(Array(items[1..]))
  {
    var t := items[1..];
    assert t[|t| - 1] == items[|items| - 1];
    if Survives(Array(items)) {
      forall i | 0 <= i < |t| - 1 ensures NoBackslashEnds(t[i]) {
        assert t[i] == items[i + 1];
      }
    }
    if NoBackslashEnds(items[0]) && Survives(Array(t)) {
      forall i | 0 <= i < |items| - 1 ensures NoBackslashEnds(items[i]) {
        assert i > 0 ==> items[i] == t[i - 1];
      }
    }
  }

  // ----- what a piece of formatted text can do

  /** What is made of text within a string. */
  function Inside(x: string): string {
    x[..StringLength(x)] + Minified(x[StringLength(x)..])
  }

  /** The text ends within a string that is not closed. */
  ghost predicate Opens(f: string, p: string) {
    forall x :: Minified(f + x) == p + Inside(x)
  }

  predicate BlankAfter(m: string, p: string) {
    |m| > |p| && m[..|p|] == p && Blank(m[|p|])
  }

  /** A blank of the formatted text is kept where the plain text goes on. */
  ghost predicate Keeps(f: string, p: string) {
    forall x :: BlankAfter(Minified(f + x), p)
  }

  /** However both texts go on, they differ. */
  ghost predicate Breaks(f: string, p: string) {
    forall x, y :: Minified(f + x) != p + y
  }

  // ----- putting pieces together

  lemma CleanOpens(a: string, p: string, f: string, q: string)
    requires Minifies(a, p) && Opens(f, q)
    ensures Opens(a + f, p + q)
  {
    forall x ensures Minified(a + f + x) == p + q + Inside(x) {
      Associative(a, f, x);
      assert Minified(a + (f + x)) == p + Minified(f + x);
      Associative(p, q, Inside(x));
    }
  }

  lemma BlankAfterMore(p: string, m: string, q: string)
    requires BlankAfter(m, q)
    ensures BlankAfter(p + m, p + q)
  {
    assert (p + m)[..|p + q|] == p + m[..|q|];
  }

  lemma CleanKeeps(a: string, p: string, f: string, q: string)
    requires Minifies(a, p) && Keeps(f, q)
    ensures Keeps(a + f, p + q)
  {
    forall x ensures BlankAfter(Minified(a + f + x), p + q) {
      Associative(a, f, x);
      assert Minified(a + (f + x)) == p + Minified(f + x);
      BlankAfterMore(p, Minified(f + x), q);
    }
  }

  lemma CleanBreaks(a: string, p: string, f: string, q: string)
    requires Minifies(a, p) && Breaks(f, q)
    ensures Breaks(a + f, p + q)
  {
    forall x, y ensures Minified(a + f + x) != p + q + y {
      Associative(a, f, x);
      Associative(p, q, y);
      assert Minified(a + (f + x)) == p + Minified(f + x);
      Cancel(p, Minified(f + x), q + y);
    }
  }

  lemma Cancel(p: string, a: string, b: string)
    requires a != b
    ensures p + a != p + b
  {
    assert (p + a)[|p|..] == a && (p + b)[|p|..] == b;
  }

  /** Text without quotes and backslashes is copied within a string. */
  lemma OpensPlain(f: string, p: string, w: string)
    requires Opens(f, p) && '"' !in w && '\\' !in w
    ensures Opens(f + w, p + w)
  {
    forall x ensures Minified(f + w + x) == p + w + Inside(x) {
      Associative(f, w, x);
      InsidePlain(w, x);
      assert Minified(f + (w + x)) == p + Inside(w + x);
      Associative(p, w, Inside(x));
    }
  }

  lemma InsidePlain(w: string, x: string)
    requires '"' !in w && '\\' !in w
    ensures Inside(w + x) == w + Inside(x)
  {
    StringPlain(w, x);
    var n := StringLength(x);
    assert (w + x)[..|w| + n] == w + x[..n] && (w + x)[|w| + n..] == x[n..];
    Associative(w, x[..n], Minified(x[n..]));
  }

  /** A blank is kept there. */
  lemma OpensBlank(f: string, p: string, b: char, g: string)
    requires Opens(f, p) && Blank(b)
    ensures Keeps(f + ([b] + g), p)
  {
    forall x ensures BlankAfter(Minified(f + ([b] + g) + x), p) {
      Associative(f, [b] + g, x);
      Associative([b], g, x);
      InsidePlain([b], g + x);
      assert Minified(f + ([b] + (g + x))) == p + Inside([b] + (g + x));
      FirstAfter(p, b, Inside(g + x));
    }
  }

  lemma FirstAfter(p: string, b: char, r: string)
    requires Blank(b)
    ensures BlankAfter(p + ([b] + r), p)
  {
  }

  lemma KeepsMore(f: string, p: string, g: string)
    requires Keeps(f, p)
    ensures Keeps(f + g, p)
  {
    forall x ensures BlankAfter(Minified(f + g + x), p) {
      Associative(f, g, x);
      assert BlankAfter(Minified(f + (g + x)), p);
    }
  }

  /** Plain text that goes on with no blank differs there. */
  lemma KeepsBreaks(f: string, p: string, g: string, q: string)
    requires Keeps(f, p) && q != "" && !Blank(q[0])
    ensures Breaks(f + g, p + q)
  {
    KeepsMore(f, p, g);
    forall x, y ensures Minified(f + g + x) != p + q + y {
      assert BlankAfter(Minified(f + g + x), p);
      assert (p + q + y)[|p|] == q[0];
    }
  }

  lemma BreaksMore(f: string, p: string, g: string, q: string)
    requires Breaks(f, p)
    ensures Breaks(f + g, p + q)
  {
    forall x, y ensures Minified(f + g + x) != p + q + y {
      Associative(f, g, x);
      Associative(p, q, y);
      assert Minified(f + (g + x)) != p + (q + y);
    }
  }

  // ----- strings

  lemma {:induction false} StringEscapeOpen(s: string, x: string)
    requires !NoBackslashEnd(s)
    ensures StringLength(Escape(s) + ("\"" + x)) == |Escape(s)| + 1 + StringLength(x)
  {
    if |s| == 1 {
      EscapeBackslash(s);
      EscapedQuoteText(x);
      StringOne('\\', "\\\"" + x);
      StringEscapedQuote(x);
    } else {
      var rest := Escape(s[1..]) + ("\"" + x);
      StringEscapeOpen(s[1..], x);
      EscapeStarts(s[1..], "\"" + x);
      StringChar(s[0], rest);
      Associative(EscapeChar(s[0]), Escape(s[1..]), "\"" + x);
    }
  }

  lemma EscapeBackslash(s: string)
    requires s == "\\"
    ensures Escape(s) == "\\\\"
  {
    assert s[1..] == "";
    assert Escape(s) == "\\\\" + "";
  }

  lemma EscapedQuoteText(x: string)
    ensures "\\\\" + ("\"" + x) == ['\\'] + ("\\\"" + x)
  {
  }

  lemma OpenRead(e: string, x: string)
    requires StringLength(e + ("\"" + x)) == |e| + 1 + StringLength(x)
    ensures Minified("\"" + e + "\"" + x) == "\"" + e + "\"" + Inside(x)
  {
    QuoteParts(e, x);
    MinifiedString("\"" + e + "\"" + x);
    OpenParts("\"" + e + "\"", x, StringLength(x));
  }

  /** A string that ends in a backslash is not closed. */
  lemma OpensQuote(s: string)
    requires !NoBackslashEnd(s)
    ensures Opens(Quote(s), Quote(s))
  {
    forall x ensures Minified(Quote(s) + x) == Quote(s) + Inside(x) {
      StringEscapeOpen(s, x);
      OpenRead(Escape(s), x);
    }
  }

  lemma OpenParts(q: string, x: string, n: nat)
    requires n <= |x|
    ensures (q + x)[..|q| + n] + Minified((q + x)[|q| + n..]) == q + (x[..n] + Minified(x[n..]))
  {
    assert (q + x)[..|q| + n] == q + x[..n] && (q + x)[|q| + n..] == x[n..];
  }

  // ----- values

  /** The three things a printed value can be. */
  ghost predicate Classified(v: Json, f: string, p: string) {
    if NoBackslashEnds(v) then Minifies(f, p) else if Survives(v) then Opens(f, p) else Breaks(f, p)
  }

  lemma {:induction false} Classify(v: Json, depth: nat, d: nat)
    ensures Classified(v, Print(v, true, depth), Print(v, false, d))
    decreases v, 1
  {
    if NoBackslashEnds(v) {
      MinifiesValue(v, depth, d);
    } else {
      match v
      case Str(s) => OpensQuote(s);
      case Array(items) =>
        ClassifyItems(items, depth + 1, d + 1);
        ClassifyArray(items, PrintItems(items, true, depth + 1), PrintItems(items, false, d + 1));
      case Object(ms) =>
        MembersStick(ms, depth + 1, d + 1);
        ObjectBreaks(PrintMembers(ms, true, depth + 1), PrintMembers(ms, false, d + 1), depth, d);
    }
  }

  lemma ClassifyArray(items: seq<Json>, f: string, p: string)
    requires !NoBackslashEnds(Array(items)) && Classified(Array(items), f, p)
    ensures Classified(Array(items), "[" + f + "]", "[" + p + "]")
  {
    MinifiesOrdinary("[");
    if Survives(Array(items)) {
      CleanOpens("[", "[", f, p);
      OpensPlain("[" + f, "[" + p, "]");
    } else {
      CleanBreaks("[", "[", f, p);
      BreaksMore("[" + f, "[" + p, "]", "]");
    }
  }

  /** The elements, as the array of them is. */
  lemma {:induction false} ClassifyItems(items: seq<Json>, depth: nat, d: nat)
    requires items != []
    ensures Classified(Array(items), PrintItems(items, true, depth), PrintItems(items, false, d))
    decreases items, 0
  {
    var f, p := Print(items[0], true, depth), Print(items[0], false, d);
    Classify(items[0], depth, d);
    if |items| == 1 {
      assert forall x :: x in items ==> x == items[0];
      assert items[0] in items;
    } else {
      var g, q := PrintItems(items[1..], true, depth), PrintItems(items[1..], false, d);
      ClassifyItems(items[1..], depth, d);
      SurvivesTail(items);
      NoneTail(items);
      ItemsStart(items[1..], d);
      if NoBackslashEnds(items[0]) {
        CleanThenItems(items, f, p, g, q);
      } else {
        StuckThenItems(items[0], f, p, g, q);
      }
    }
  }

  lemma NoneTail(items: seq<Json>)
    requires items != []
    ensures NoBackslashEnds(Array(items)) <==> NoBackslashEnds(items[0]) && NoBackslashEnds(Array(items[1..]))
  {
    assert items == [items[0]] + items[1..];
  }

  lemma ItemsStart(items: seq<Json>, d: nat)
    requires items != []
    ensures PrintItems(items, false, d) != "" && !Blank(PrintItems(items, false, d)[0])
  {
    PrintStarts(items[0], false, d);
    var p := Print(items[0], false, d);
    assert PrintItems(items, false, d)[0] == p[0];
  }

  lemma CleanThenItems(items: seq<Json>, f: string, p: string, g: string, q: string)
    requires |items| > 1 && NoBackslashEnds(items[0]) && Minifies(f, p)
    requires Classified(Array(items[1..]), g, q)
    ensures Classified(Array(items), f + ("," + AfterComma(true)) + g, p + ("," + AfterComma(false)) + q)
  {
    SurvivesTail(items);
    NoneTail(items);
    Separator();
    MinifiesConcat(f, p, "," + " ", "," + "");
    if NoBackslashEnds(Array(items[1..])) {
      MinifiesConcat(f + ("," + " "), p + ("," + ""), g, q);
    } else if Survives(Array(items[1..])) {
      CleanOpens(f + ("," + " "), p + ("," + ""), g, q);
    } else {
      CleanBreaks(f + ("," + " "), p + ("," + ""), g, q);
    }
  }

  lemma Separator()
    ensures Minifies("," + " ", "," + "")
  {
    MinifiesOrdinary(",");
    MinifiesBlank(" ");
    MinifiesConcat(",", ",", " ", "");
  }

  lemma StuckThenItems(v: Json, f: string, p: string, g: string, q: string)
    requires !NoBackslashEnds(v) && Classified(v, f, p) && q != "" && !Blank(q[0])
    ensures Breaks(f + ("," + " ") + g, p + ("," + "") + q)
  {
    if Survives(v) {
      OpenThenBlank(f, p, ",", ' ', "", g, q);
      assert "," + " " == "," + ([' '] + "") && "," + "" == ",";
      Associative(f, ",", " ");
    } else {
      BreaksMore(f, p, "," + " ", "," + "");
      BreaksMore(f + ("," + " "), p + ("," + ""), g, q);
    }
  }

  /** An open string, plain text, a blank: the plain text must not go on. */
  lemma OpenThenBlank(f: string, p: string, w: string, b: char, r: string, g: string, q: string)
    requires Opens(f, p) && '"' !in w && '\\' !in w && Blank(b) && q != "" && !Blank(q[0])
    ensures Breaks(f + (w + ([b] + r)) + g, p + w + q)
  {
    OpensPlain(f, p, w);
    OpensBlank(f + w, p + w, b, r);
    Associative(f, w, [b] + r);
    KeepsBreaks(f + w + ([b] + r), p + w, g, q);
  }

  // ----- members

  /** A text that breaks, or will as soon as the plain text goes on. */
  ghost predicate Sticks(f: string, p: string) {
    Breaks(f, p) || Keeps(f, p)
  }

  lemma SticksBreaks(f: string, p: string, g: string, q: string)
    requires Sticks(f, p) && q != "" && !Blank(q[0])
    ensures Breaks(f + g, p + q)
  {
    if Breaks(f, p) {
      BreaksMore(f, p, g, q);
    } else {
      KeepsBreaks(f, p, g, q);
    }
  }

  lemma CleanSticks(a: string, p: string, f: string, q: string)
    requires Minifies(a, p) && Sticks(f, q)
    ensures Sticks(a + f, p + q)
  {
    if Breaks(f, q) {
      CleanBreaks(a, p, f, q);
    } else {
      CleanKeeps(a, p, f, q);
    }
  }

  predicate CleanMember(m: Member) {
    NoBackslashEnd(m.key) && NoBackslashEnds(m.value)
  }

  lemma {:induction false} MembersStick(ms: seq<Member>, depth: nat, d: nat)
    requires exists m :: m in ms && !CleanMember(m)
    ensures Sticks(PrintMembers(ms, true, depth), PrintMembers(ms, false, d))
    decreases ms, 0
  {
    var m, rest := ms[0], ms[1..];
    var f, p := PrintMember(m, true, depth, |ms| > 1), PrintMember(m, false, d, |ms| > 1);
    var g, q := PrintMembers(rest, true, depth), PrintMembers(rest, false, d);
    assert ms == [m] + rest;
    MinifiesBlank(Tabs(depth));
    if CleanMember(m) {
      MinifiesValue(m.value, depth, d);
      MinifiesMember(m, depth, d, |ms| > 1);
      MembersStick(rest, depth, d);
      MinifiesConcat(Tabs(depth), "", f, p);
      CleanSticks(Tabs(depth) + f, "" + p, g, q);
    } else {
      MemberSticks(m, depth, d, |ms| > 1);
      CleanSticks(Tabs(depth), "", f, p);
      SticksThenMembers(Tabs(depth) + f, "" + p, rest, depth, d);
    }
  }

  lemma SticksThenMembers(f: string, p: string, rest: seq<Member>, depth: nat, d: nat)
    requires Sticks(f, p)
    ensures Sticks(f + PrintMembers(rest, true, depth), p + PrintMembers(rest, false, d))
  {
    var g, q := PrintMembers(rest, true, depth), PrintMembers(rest, false, d);
    if rest == [] {
      assert f + "" == f && p + "" == p;
    } else {
      MembersStart(rest, d);
      SticksBreaks(f, p, g, q);
    }
  }

  lemma MembersStart(ms: seq<Member>, d: nat)
    requires ms != []
    ensures PrintMembers(ms, false, d) != "" && !Blank(PrintMembers(ms, false, d)[0])
  {
    var p := PrintMember(ms[0], false, d, |ms| > 1);
    assert PrintMembers(ms, false, d)[0] == p[0];
  }

  lemma {:induction false} MemberSticks(m: Member, depth: nat, d: nat, more: bool)
    requires !CleanMember(m)
    ensures Sticks(PrintMember(m, true, depth, more), PrintMember(m, false, d, more))
    decreases m, 2
  {
    var a, p := Print(m.value, true, depth), Print(m.value, false, d);
    var comma := if more then "," else "";
    PrintStarts(m.value, false, d);
    if !NoBackslashEnd(m.key) {
      OpensQuote(m.key);
      KeySticks(Quote(m.key), a, p);
      BreaksEnd(Quote(m.key) + (":" + "\t") + a, Quote(m.key) + (":" + "") + p, comma);
    } else {
      Classify(m.value, depth, d);
      MinifiesKey(m.key);
      ValueSticks(m.value, Quote(m.key) + (":" + "\t"), Quote(m.key) + (":" + ""), a, p, comma);
    }
  }

  lemma KeySticks(k: string, a: string, p: string)
    requires Opens(k, k) && p != "" && !Blank(p[0])
    ensures Breaks(k + (":" + "\t") + a, k + (":" + "") + p)
  {
    OpenThenBlank(k, k, ":", '\t', "", a, p);
    assert ":" + "\t" == ":" + (['\t'] + "") && ":" + "" == ":";
  }

  lemma BreaksEnd(f: string, p: string, comma: string)
    requires Breaks(f, p)
    ensures Breaks(f + comma + "\n", p + comma + "")
  {
    BreaksMore(f, p, comma, comma);
    BreaksMore(f + comma, p + comma, "\n", "");
  }

  lemma ValueSticks(v: Json, k: string, l: string, a: string, p: string, comma: string)
    requires Minifies(k, l) && !NoBackslashEnds(v) && Classified(v, a, p) && (comma == "," || comma == "")
    ensures Sticks(k + a + comma + "\n", l + p + comma + "")
  {
    if Survives(v) {
      CleanOpens(k, l, a, p);
      KeepsEnd(k + a, l + p, comma);
    } else {
      CleanBreaks(k, l, a, p);
      BreaksEnd(k + a, l + p, comma);
    }
  }

  lemma KeepsEnd(f: string, p: string, comma: string)
    requires Opens(f, p) && (comma == "," || comma == "")
    ensures Keeps(f + comma + "\n", p + comma + "")
  {
    OpensPlain(f, p, comma);
    assert ['\n'] + "" == "\n";
    OpensBlank(f + comma, p + comma, '\n', "");
    AppendNothing(p + comma);
  }

  lemma AppendNothing(p: string)
    ensures p + "" == p
  {
  }

  lemma ObjectBreaks(f: string, p: string, depth: nat, d: nat)
    requires Sticks(f, p)
    ensures Breaks("{" + NewLine(true) + f + Indent(true, depth) + "}", "{" + NewLine(false) + p + Indent(false, d) + "}")
  {
    Opening();
    CleanSticks("{" + "\n", "{" + "", f, p);
    SticksBreaks("{" + "\n" + f, "{" + "" + p, Tabs(depth) + "}", "}");
    Associative("{" + "\n" + f, Tabs(depth), "}");
    AppendNothing("{" + "" + p);
  }

  lemma Opening()
    ensures Minifies("{" + "\n", "{" + "")
  {
    MinifiesOrdinary("{");
    MinifiesBlank("\n");
    MinifiesConcat("{", "{", "\n", "");
  }

  // ----- the results

  /** Minifying formatted output gives unformatted output if and only if the tree survives. */
  lemma MinifyPrintExactly(v: Json)
    ensures Minified(Print(v, true, 0)) == Print(v, false, 0) <==> Survives(v)
  {
    var f, p := Print(v, true, 0), Print(v, false, 0);
    Classify(v, 0, 0);
    assert f + "" == f && p + "" == p;
    if NoBackslashEnds(v) {
      NoneSurvives(v);
      assert Minified(f + "") == p + Minified("");
    } else if Survives(v) {
      assert Minified(f + "") == p + Inside("");
    } else {
      assert Minified(f + "") != p + "";
    }
  }

  /** In particular for a tree in which no string and no key ends in a backslash. */
  lemma MinifyPrint(v: Json)
    requires NoBackslashEnds(v)
    ensures Minified(Print(v, true, 0)) == Print(v, false, 0)
  {
    NoneSurvives(v);
    MinifyPrintExactly(v);
  }

  /** Blanks after a string that ends in a backslash are kept. */
  lemma BackslashEndKeepsBlanks()
    ensures var v := Array([Str("\\"), Null]); Minified(Print(v, true, 0)) != Print(v, false, 0)
  {
    var v := Array([Str("\\"), Null]);
    assert !NoBackslashEnds(v.items[0]);
    assert !Survives(v);
    MinifyPrintExactly(v);
  }
}
