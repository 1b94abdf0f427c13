/**
 Parsing undoes printing: for every tree with NUL-free strings and keys and nesting within the limit,
 the parser consumes exactly the text printed for it, formatted or not, and rebuilds the tree.
 */
module ParsePrint {
  import opened CString
  import opened Json
  import opened Pointer
  import opened Unicode
  import opened JsonText

  // ----- strings

  /** Scanning `n` characters that hold no quote and no backslash. */
  lemma {:induction false} ScanPlain(a: string, t: string)
    requires '"' !in a && '\\' !in a
    ensures ScanEnd(a + t) == if ScanEnd(t).None? then None else Some(|a| + ScanEnd(t).value)
  {
    if a == "" {
      assert a + t == t;
    } else {
      ScanPlain(a[1..], t);
      assert (a + t)[1..] == a[1..] + t;
    }
  }

  lemma ScanLiteral(h: string, t: string)
    requires |h| == 4 && '"' !in h && '\\' !in h
    ensures ScanEnd("\\u" + h + t) == if ScanEnd(t).None? then None else Some(6 + ScanEnd(t).value)
  {
    ScanPlain(h, t);
    LiteralText(h, t);
    ScanEscaped("\\u" + h + t);
  }

  lemma LiteralText(h: string, t: string)
    ensures var r := "\\u" + h + t; |r| >= 2 && r[0] == '\\' && r[2..] == h + t
  {
  }

  lemma ScanEscaped(r: string)
    requires |r| >= 2 && r[0] == '\\'
    ensures ScanEnd(r) == if ScanEnd(r[2..]).None? then None else Some(2 + ScanEnd(r[2..]).value)
  {
  }

  lemma HexPlain(n: nat)
    requires n < 0x10000
    ensures '"' !in Hex4(n) && '\\' !in Hex4(n)
  {
    HexValueDigit(n / 16 / 16 / 16);
    HexValueDigit(n / 16 / 16 % 16);
    HexValueDigit(n / 16 % 16);
    HexValueDigit(n % 16);
  }

  predicate Control(c: char) {
    c < ' ' && c != '\U{0008}' && c != '\U{000c}' && c != '\n' && c != '\r' && c != '\t'
  }

  lemma ScanChar(c: char, t: string)
    ensures ScanEnd(EscapeChar(c) + t) ==
            if ScanEnd(t).None? then None else Some(|EscapeChar(c)| + ScanEnd(t).value)
  {
    if Control(c) {
      HexPlain(c as int);
      ScanLiteral(Hex4(c as int), t);
    } else if |EscapeChar(c)| == 2 {
      assert (EscapeChar(c) + t)[2..] == t;
    } else {
      assert (EscapeChar(c) + t)[1..] == t;
    }
  }

  lemma {:induction false} ScanEscape(s: string, rest: string)
    ensures ScanEnd(Escape(s) + ("\"" + rest)) == Some(|Escape(s)|)
  {
    if s == "" {
      assert Escape(s) + ("\"" + rest) == "\"" + rest;
    } else {
      ScanEscape(s[1..], rest);
      ScanMore(s[0], Escape(s[1..]), "\"" + rest);
    }
  }

  lemma ScanMore(c: char, e: string, t: string)
    requires ScanEnd(e + t) == Some(|e|)
    ensures ScanEnd(EscapeChar(c) + e + t) == Some(|EscapeChar(c)| + |e|)
  {
    ScanChar(c, e + t);
    Associative(EscapeChar(c), e, t);
  }

  lemma UnescapePlain(c: char, b: string)
    requires c != '\\' && Unescape(b).Some?
    ensures Unescape([c] + b) == Some([c] + Unescape(b).value)
  {
    assert ([c] + b)[1..] == b;
  }

  lemma UnescapeSimple(x: char, c: char, b: string)
    requires SimpleEscape(x) == Some(c) && Unescape(b).Some?
    ensures Unescape("\\" + [x] + b) == Some([c] + Unescape(b).value)
  {
    SimpleText(x, b);
    UnescapeEscaped("\\" + [x] + b, c);
  }

  lemma SimpleText(x: char, b: string)
    ensures var t := "\\" + [x] + b; |t| > 1 && t[0] == '\\' && t[1] == x && t[2..] == b
  {
  }

  lemma UnescapeEscaped(t: string, c: char)
    requires |t| > 1 && t[0] == '\\' && SimpleEscape(t[1]) == Some(c) && Unescape(t[2..]).Some?
    ensures Unescape(t) == Some([c] + Unescape(t[2..]).value)
  {
  }

  lemma UnescapeLiteral(e: string, b: string, u: string)
    requires |e| >= 2 && e[0] == '\\' && e[1] == 'u'
    requires Utf16Literal(e + b) == Some((u, |e|)) && Unescape(b).Some?
    ensures Unescape(e + b) == Some(u + Unescape(b).value)
  {
    assert (e + b)[|e|..] == b;
    assert (e + b)[0] == '\\' && (e + b)[1] == 'u';
  }

  lemma UnescapeChar(c: char, b: string)
    requires Unescape(b).Some?
    ensures Unescape(EscapeChar(c) + b) == Some([c] + Unescape(b).value)
  {
    if Control(c) {
      SingleRead(c as int, b);
      UnescapeLiteral("\\u" + Hex4(c as int), b, [c]);
    } else if c == '"' || c == '\\' {
      UnescapeSimple(c, c, b);
    } else if c < ' ' {
      UnescapeSimple(EscapeChar(c)[1], c, b);
      assert EscapeChar(c) == "\\" + [EscapeChar(c)[1]];
    } else {
      UnescapePlain(c, b);
    }
  }

  lemma {:induction false} UnescapeEscape(s: string)
    ensures Unescape(Escape(s)) == Some(s)
  {
    if s != "" {
      UnescapeEscape(s[1..]);
      UnescapeChar(s[0], Escape(s[1..]));
      assert [s[0]] + s[1..] == s;
    }
  }

  lemma {:induction false} CStrNulFree(s: string)
    requires NulFree(s)
    ensures CStr(s) == s
  {
    if s != "" {
      CStrNulFree(s[1..]);
    }
  }

  lemma ParseQuote(s: string, rest: string)
    requires NulFree(s)
    ensures ParseString(Quote(s) + rest) == Ok(s, rest)
  {
    ScanEscape(s, rest);
    UnescapeEscape(s);
    ParseQuoted(Escape(s), s, rest);
  }

  lemma ParseQuoted(e: string, s: string, rest: string)
    requires ScanEnd(e + ("\"" + rest)) == Some(|e|) && Unescape(e) == Some(s) && NulFree(s)
    ensures ParseString("\"" + e + "\"" + rest) == Ok(s, rest)
  {
    QuotedText(e, rest);
    CStrNulFree(s);
  }

  lemma QuotedText(e: string, rest: string)
    ensures var r := "\"" + e + "\"" + rest;
            && r[0] == '"' && r[1..] == e + ("\"" + rest)
            && r[1..1 + |e|] == e && r[2 + |e|..] == rest
  {
  }

  // ----- numbers

  /** A remainder that cannot be mistaken for more of a number. */
  predicate Delimited(rest: string) {
    rest == "" || !(IsDigit(rest[0]) || FractionOrExponent(rest[0]))
  }

  /** Reading a printed number continues after it with its value. */
  lemma {:induction false} ReadDecimal(n: nat, t: string)
    ensures ReadDigits(Decimal(n) + t, 0) == ReadDigits(t, n)
  {
    var d := Digit(n % 10);
    if n < 10 {
      ReadOne(d, t, 0);
    } else {
      ReadDecimal(n / 10, [d] + t);
      ReadOne(d, t, n / 10);
      assert Decimal(n) + t == Decimal(n / 10) + ([d] + t);
    }
  }

  lemma ReadOne(d: char, t: string, acc: nat)
    requires IsDigit(d)
    ensures ReadDigits([d] + t, acc) == ReadDigits(t, 10 * acc + (d as int - '0' as int))
  {
    assert ([d] + t)[1..] == t;
  }

  function Pow10(k: nat): nat {
    if k == 0 then 1 else 10 * Pow10(k - 1)
  }

  lemma {:induction false} DecimalLength(n: nat, k: nat)
    requires k > 0 && n < Pow10(k)
    ensures |Decimal(n)| <= k
  {
    if n >= 10 {
      DecimalLength(n / 10, k - 1);
    }
  }

  lemma NumLength(n: nat)
    requires n < NUM_LIMIT
    ensures |Decimal(n)| <= 15
  {
    assert Pow10(5) == 100000;
    assert Pow10(10) == 100000 * Pow10(5);
    assert Pow10(15) == 100000 * Pow10(10) == NUM_LIMIT;
    DecimalLength(n, 15);
  }

  lemma StrtodPlus(n: nat, tail: string)
    requires Delimited(tail)
    ensures Strtod(Decimal(n) + tail) == Some((n as int, |Decimal(n)|))
  {
    DecimalDigits(n);
    ReadDecimal(n, tail);
    assert (Decimal(n) + tail)[0] == Decimal(n)[0];
  }

  lemma StrtodMinus(n: nat, tail: string)
    requires Delimited(tail)
    ensures Strtod("-" + Decimal(n) + tail) == Some((-(n as int), 1 + |Decimal(n)|))
  {
    var t := "-" + Decimal(n) + tail;
    assert t[0] == '-' && t[1..] == Decimal(n) + tail;
    ReadDecimal(n, tail);
  }

  lemma Truncated(a: string, rest: string, k: nat) returns (tail: string)
    requires |a| <= k && Delimited(rest)
    ensures Delimited(tail)
    ensures (if |a + rest| <= k then a + rest else (a + rest)[..k]) == a + tail
  {
    tail := if |a + rest| <= k then rest else rest[..k - |a|];
  }

  lemma ParseNumberIs(a: string, n: Num, rest: string)
    requires |a| <= 16 && Delimited(rest)
    requires forall tail :: Delimited(tail) ==> Strtod(a + tail) == Some((n as int, |a|))
    ensures ParseNumber(a + rest) == Ok(n, rest)
  {
    var tail := Truncated(a, rest, NUMBER_BUFFER);
    assert Strtod(a + tail) == Some((n as int, |a|));
    assert (a + rest)[|a|..] == rest;
  }

  lemma ParsePrintNumber(n: Num, rest: string)
    requires Delimited(rest)
    ensures ParseNumber(PrintNumber(n) + rest) == Ok(n, rest)
  {
    var m: nat := if n < 0 then -n else n;
    NumLength(m);
    forall tail | Delimited(tail) ensures Strtod(PrintNumber(n) + tail) == Some((n as int, |PrintNumber(n)|)) {
      if n < 0 {
        StrtodMinus(m, tail);
      } else {
        StrtodPlus(m, tail);
      }
    }
    ParseNumberIs(PrintNumber(n), n, rest);
  }

  // ----- white space

  lemma {:induction false} DropSpaces(w: string, t: string)
    requires AllSpace(w)
    requires t != "" && !Space(t[0])
    ensures DropSpace(w + t) == t
  {
    if w == "" {
      assert w + t == t;
    } else {
      DropSpaces(w[1..], t);
      assert (w + t)[1..] == w[1..] + t;
    }
  }

  lemma SkipSpaces(w: string, t: string)
    requires AllSpace(w)
    requires t != "" && !Space(t[0])
    ensures Skip(w + t) == t
  {
    DropSpaces(w, t);
  }

  lemma SkipNone(t: string)
    requires t != "" && !Space(t[0])
    ensures Skip(t) == t
  {
    SkipSpaces("", t);
    assert "" + t == t;
  }

  // ----- trees

  /** Strings and keys are C strings. */
  predicate NulFreeTree(v: Json) {
    match v
    case Str(s) => NulFree(s)
    case Array(items) => forall i :: 0 <= i < |items| ==> NulFreeTree(items[i])
    case Object(ms) => forall i :: 0 <= i < |ms| ==> NulFree(ms[i].key) && NulFreeTree(ms[i].value)
    case _ => true
  }

  ghost predicate ItemsNulFree(items: seq<Json>) {
    forall x :: x in items ==> NulFreeTree(x)
  }

  ghost predicate MembersNulFree(ms: seq<Member>) {
    forall m :: m in ms ==> NulFree(m.key) && NulFreeTree(m.value)
  }

  /** What a printed value starts with. */
  lemma PrintStarts(v: Json, fmt: bool, depth: nat)
    ensures var t := Print(v, fmt, depth);
            && t != "" && !Space(t[0])
            && (t[0] == 'n' <==> v.Null?) && (t[0] == 'f' <==> v.False?) && (t[0] == 't' <==> v.True?)
            && (t[0] == '"' <==> v.Str?) && (t[0] == '[' <==> v.Array?) && (t[0] == '{' <==> v.Object?)
            && ((t[0] == '-' || IsDigit(t[0])) <==> v.Number?)
            && t[0] != ']' && t[0] != '}'
  {
    if v.Number? {
      DecimalDigits(if v.n < 0 then -v.n else v.n);
    }
  }

  lemma PrefixHead(w: string, r: string)
    requires w != "" && r != "" && w[0] != r[0]
    ensures !(w <= r)
  {
  }

  function AsStr(p: Parsed<string>): Parsed<Json> {
    if p.Fail? then Fail else Ok(Str(p.value), p.rest)
  }

  function AsNumber(p: Parsed<Num>): Parsed<Json> {
    if p.Fail? then Fail else Ok(Number(p.value), p.rest)
  }

  /** `parse_value` picks its branch by the first character of the printed text. */
  lemma NoWord(r: string)
    requires r != "" && r[0] != 'n' && r[0] != 'f' && r[0] != 't'
    ensures !("null" <= r) && !("false" <= r) && !("true" <= r)
  {
    PrefixHead("null", r);
    PrefixHead("false", r);
    PrefixHead("true", r);
  }

  lemma StringBranch(r: string, depth: nat)
    requires r != "" && r[0] == '"'
    ensures ParseValue(r, depth) == AsStr(ParseString(r))
  {
    NoWord(r);
  }

  lemma NumberBranch(r: string, depth: nat)
    requires r != "" && (r[0] == '-' || IsDigit(r[0]))
    ensures ParseValue(r, depth) == AsNumber(ParseNumber(r))
  {
    NoWord(r);
  }

  lemma ArrayBranch(r: string, depth: nat)
    requires r != "" && r[0] == '['
    ensures ParseValue(r, depth) == ParseArray(r, depth)
  {
    NoWord(r);
  }

  lemma ObjectBranch(r: string, depth: nat)
    requires r != "" && r[0] == '{'
    ensures ParseValue(r, depth) == ParseObject(r, depth)
  {
    NoWord(r);
  }

  /** The parser reads back what the printer wrote, up to a delimiter. */
  lemma {:induction false} ParsePrintValue(v: Json, fmt: bool, depth: nat, d: nat, rest: string)
    requires NulFreeTree(v) && Delimited(rest) && d + Height(v) <= NESTING_LIMIT
    ensures ParseValue(Print(v, fmt, depth) + rest, d) == Ok(v, rest)
    decreases v, 1
  {
    var t := Print(v, fmt, depth);
    var r := t + rest;
    PrintStarts(v, fmt, depth);
    assert r[0] == t[0];
    match v
    case Null => assert "null" <= r && r[4..] == rest;
    case False =>
      PrefixHead("null", r);
      assert "false" <= r && r[5..] == rest;
    case True =>
      PrefixHead("null", r);
      PrefixHead("false", r);
      assert "true" <= r && r[4..] == rest;
    case Number(n) =>
      NumberBranch(r, d);
      ParsePrintNumber(n, rest);
    case Str(s) =>
      StringBranch(r, d);
      ParseQuote(s, rest);
    case Array(items) =>
      ArrayBranch(r, d);
      assert ItemsNulFree(items);
      ParsePrintArray(items, fmt, depth, d, rest);
    case Object(ms) =>
      ObjectBranch(r, d);
      assert MembersNulFree(ms);
      ParsePrintObject(ms, fmt, depth, d, rest);
  }

  lemma ConsTail<T>(s: seq<T>)
    requires s != []
    ensures [s[0]] + s[1..] == s
    ensures |s| == 1 ==> [s[0]] == s
  {
  }

  lemma SpaceConcat(a: string, b: string)
    requires AllSpace(a) && AllSpace(b)
    ensures AllSpace(a + b)
  {
  }

  // one round of each loop, on texts that are already cut into pieces

  lemma ItemsLast(r: string, t: string, x: Json, rest: string, d: nat)
    requires d <= NESTING_LIMIT && Skip(r) == t && ParseValue(t, d) == Ok(x, "]" + rest)
    ensures ParseItems(r, d) == Ok([x], rest)
  {
    SkipNone("]" + rest);
    assert ("]" + rest)[1..] == rest;
  }

  lemma ItemsMore(r: string, t: string, x: Json, tail: string, xs: seq<Json>, rest: string, d: nat)
    requires d <= NESTING_LIMIT && Skip(r) == t && ParseValue(t, d) == Ok(x, "," + tail)
    requires ParseItems(tail, d) == Ok(xs, rest)
    ensures ParseItems(r, d) == Ok([x] + xs, rest)
  {
    SkipNone("," + tail);
    assert ("," + tail)[1..] == tail;
  }

  lemma MembersLast(r: string, m: Member, w: string, rest: string, d: nat)
    requires d <= NESTING_LIMIT && ParseMember(r, d) == Ok(m, w + ("}" + rest))
    requires AllSpace(w)
    ensures ParseMembers(r, d) == Ok([m], rest)
  {
    SkipSpaces(w, "}" + rest);
    assert ("}" + rest)[1..] == rest;
  }

  lemma MembersMore(r: string, m: Member, tail: string, ms: seq<Member>, rest: string, d: nat)
    requires d <= NESTING_LIMIT && ParseMember(r, d) == Ok(m, "," + tail)
    requires ParseMembers(tail, d) == Ok(ms, rest)
    ensures ParseMembers(r, d) == Ok([m] + ms, rest)
  {
    SkipNone("," + tail);
    assert ("," + tail)[1..] == tail;
  }

  lemma ArrayOpens(body: string, items: seq<Json>, rest: string, d: nat)
    requires d < NESTING_LIMIT && body != "" && !Space(body[0]) && body[0] != ']'
    requires ParseItems(body, d + 1) == Ok(items, rest)
    ensures ParseArray("[" + body, d) == Ok(Array(items), rest)
  {
    assert ("[" + body)[1..] == body;
    SkipNone(body);
  }

  lemma ArrayFromItems(body: string, items: seq<Json>, rest: string, d: nat)
    requires d < NESTING_LIMIT && body != "" && !Space(body[0]) && body[0] != ']'
    requires ParseItems("" + body + ("]" + rest), d + 1) == Ok(items, rest)
    ensures ParseArray("[" + body + "]" + rest, d) == Ok(Array(items), rest)
  {
    ArrayText(body, rest);
    ArrayOpens(body + ("]" + rest), items, rest, d);
  }

  lemma ArrayText(body: string, rest: string)
    requires body != ""
    ensures "" + body + ("]" + rest) == body + ("]" + rest)
    ensures "[" + body + "]" + rest == "[" + (body + ("]" + rest))
    ensures (body + ("]" + rest))[0] == body[0]
  {
  }

  lemma ObjectFromMembers(nl: string, w: string, first: string, more: string, close: string, ms: seq<Member>, rest: string, d: nat)
    requires d < NESTING_LIMIT && first != "" && first[0] == '"'
    requires AllSpace(nl)
    requires AllSpace(w)
    requires ParseMembers("" + (first + more + (close + ("}" + rest))), d + 1) == Ok(ms, rest)
    ensures ParsesAsObject("{" + nl + (w + first + more) + close + "}" + rest, d, ms, rest)
  {
    ObjectText(nl, w, first, more, close, rest);
    SpaceConcat(nl, w);
    ObjectOpens(nl + w, first + more + (close + ("}" + rest)), ms, rest, d);
  }

  lemma ObjectText(nl: string, w: string, first: string, more: string, close: string, rest: string)
    requires first != ""
    ensures var t := first + more + (close + ("}" + rest));
            && "" + t == t && t[0] == first[0]
            && "{" + nl + (w + first + more) + close + "}" + rest == "{" + (nl + w + t)
  {
    var t := first + more + (close + ("}" + rest));
    assert "{" + nl + (w + first + more) + close + "}" + rest == "{" + (nl + w + t);
  }

  lemma ObjectFromNone(nl: string, close: string, rest: string, d: nat)
    requires d < NESTING_LIMIT
    requires AllSpace(nl)
    requires AllSpace(close)
    ensures ParsesAsObject("{" + nl + "" + close + "}" + rest, d, [], rest)
  {
    SpaceConcat(nl, close);
    ObjectEmpty(nl + close, rest, d);
    EmptyObjectText(nl, close, rest);
  }

  lemma EmptyObjectText(nl: string, close: string, rest: string)
    ensures "{" + nl + "" + close + "}" + rest == "{" + (nl + close + ("}" + rest))
  {
  }

  lemma ArrayEmpty(rest: string, d: nat)
    requires d < NESTING_LIMIT
    ensures ParseArray("[" + "" + "]" + rest, d) == Ok(Array([]), rest)
  {
    assert "[" + "" + "]" + rest == "[]" + rest;
    assert ("[]" + rest)[1..] == "]" + rest;
    SkipNone("]" + rest);
    assert ("]" + rest)[1..] == rest;
  }

  lemma ObjectOpens(w: string, body: string, ms: seq<Member>, rest: string, d: nat)
    requires d < NESTING_LIMIT && body != "" && body[0] == '"' && AllSpace(w)
    requires ParseMembers(body, d + 1) == Ok(ms, rest)
    ensures ParseObject("{" + (w + body), d) == Ok(Object(ms), rest)
  {
    assert ("{" + (w + body))[1..] == w + body;
    SkipSpaces(w, body);
  }

  lemma ObjectEmpty(w: string, rest: string, d: nat)
    requires d < NESTING_LIMIT && AllSpace(w)
    ensures ParseObject("{" + (w + ("}" + rest)), d) == Ok(Object([]), rest)
  {
    assert ("{" + (w + ("}" + rest)))[1..] == w + ("}" + rest);
    SkipSpaces(w, "}" + rest);
    assert ("}" + rest)[1..] == rest;
  }

  // how the printed text is cut into pieces

  lemma ItemsText1(w: string, first: string, rest: string)
    ensures w + first + ("]" + rest) == w + (first + ("]" + rest))
  {
  }

  lemma ItemsText(w: string, first: string, sep: string, more: string, rest: string)
    ensures w + (first + ("," + sep) + more) + ("]" + rest) == w + (first + ("," + (sep + more + ("]" + rest))))
  {
  }

  lemma {:induction false} ParsePrintArray(items: seq<Json>, fmt: bool, depth: nat, d: nat, rest: string)
    requires ItemsNulFree(items) && d + 1 + ItemsHeight(items) <= NESTING_LIMIT
    ensures ParseArray("[" + PrintItems(items, fmt, depth + 1) + "]" + rest, d) == Ok(Array(items), rest)
    decreases items, 2
  {
    if items == [] {
      ArrayEmpty(rest, d);
    } else {
      ItemsStart(items, fmt, depth + 1);
      ParsePrintItems("", items, fmt, depth + 1, d + 1, rest);
      ArrayFromItems(PrintItems(items, fmt, depth + 1), items, rest, d);
    }
  }

  lemma ItemsStart(items: seq<Json>, fmt: bool, depth: nat)
    requires items != []
    ensures var t := PrintItems(items, fmt, depth); t != "" && !Space(t[0]) && t[0] != ']'
  {
    PrintStarts(items[0], fmt, depth);
  }

  lemma TailNulFree(items: seq<Json>)
    requires items != [] && ItemsNulFree(items)
    ensures NulFreeTree(items[0]) && ItemsNulFree(items[1..])
    ensures Height(items[0]) <= ItemsHeight(items) && ItemsHeight(items[1..]) <= ItemsHeight(items)
  {
  }

  lemma {:induction false} ParsePrintItems(w: string, items: seq<Json>, fmt: bool, depth: nat, d: nat, rest: string)
    requires AllSpace(w)
    requires items != [] && ItemsNulFree(items) && d + ItemsHeight(items) <= NESTING_LIMIT
    ensures ParseItems(w + PrintItems(items, fmt, depth) + ("]" + rest), d) == Ok(items, rest)
    decreases items, 1
  {
    var x, xs := items[0], items[1..];
    var first := Print(x, fmt, depth);
    var r := w + PrintItems(items, fmt, depth) + ("]" + rest);
    TailNulFree(items);
    PrintStarts(x, fmt, depth);
    if |items| == 1 {
      var t := first + ("]" + rest);
      ItemsText1(w, first, rest);
      SkipSpaces(w, t);
      ParsePrintValue(x, fmt, depth, d, "]" + rest);
      ItemsLast(r, t, x, rest, d);
      ConsTail(items);
    } else {
      var sep := AfterComma(fmt);
      var tail := sep + PrintItems(xs, fmt, depth) + ("]" + rest);
      var t := first + ("," + tail);
      ItemsText(w, first, sep, PrintItems(xs, fmt, depth), rest);
      SkipSpaces(w, t);
      ParsePrintValue(x, fmt, depth, d, "," + tail);
      ParsePrintItems(sep, xs, fmt, depth, d, rest);
      ItemsMore(r, t, x, tail, xs, rest, d);
      ConsTail(items);
    }
  }

  lemma {:induction false} ParsePrintObject(ms: seq<Member>, fmt: bool, depth: nat, d: nat, rest: string)
    requires MembersNulFree(ms) && d + 1 + MembersHeight(ms) <= NESTING_LIMIT
    ensures ParsesAsObject(Print(Object(ms), fmt, depth) + rest, d, ms, rest)
    decreases ms, 4
  {
    if ms == [] {
      PrintedEmpty(fmt, depth, rest, d);
    } else {
      ParsePrintNonEmpty(ms, fmt, depth, d, rest);
    }
  }

  lemma {:induction false} ParsePrintNonEmpty(ms: seq<Member>, fmt: bool, depth: nat, d: nat, rest: string)
    requires ms != [] && MembersNulFree(ms) && d + 1 + MembersHeight(ms) <= NESTING_LIMIT
    ensures ParsesAsObject(Print(Object(ms), fmt, depth) + rest, d, ms, rest)
    decreases ms, 3
  {
    ParsePrintBody(ms, fmt, depth, d, rest);
    PrintedObject(ms, fmt, depth, rest, d);
  }

  lemma {:induction false} ParsePrintBody(ms: seq<Member>, fmt: bool, depth: nat, d: nat, rest: string)
    requires ms != [] && MembersNulFree(ms) && d + 1 + MembersHeight(ms) <= NESTING_LIMIT
    ensures ParseMembers("" + (PrintMember(ms[0], fmt, depth + 1, |ms| > 1) + PrintMembers(ms[1..], fmt, depth + 1)
                         + (Indent(fmt, depth) + ("}" + rest))), d + 1) == Ok(ms, rest)
    decreases ms, 2
  {
    ParsePrintMembers("", ms, fmt, depth + 1, d + 1, Indent(fmt, depth), rest);
  }

  ghost predicate ParsesAsObject(r: string, d: nat, ms: seq<Member>, rest: string) {
    r != "" && r[0] == '{' && ParseObject(r, d) == Ok(Object(ms), rest)
  }

  lemma EmptyPrinted(fmt: bool, depth: nat)
    ensures Print(Object([]), fmt, depth) == "{" + NewLine(fmt) + "" + Indent(fmt, depth) + "}"
  {
  }

  lemma PrintedEmpty(fmt: bool, depth: nat, rest: string, d: nat)
    requires d < NESTING_LIMIT
    ensures ParsesAsObject(Print(Object([]), fmt, depth) + rest, d, [], rest)
  {
    ObjectFromNone(NewLine(fmt), Indent(fmt, depth), rest, d);
    EmptyPrinted(fmt, depth);
  }

  lemma PrintedObject(ms: seq<Member>, fmt: bool, depth: nat, rest: string, d: nat)
    requires d < NESTING_LIMIT && ms != []
    requires ParseMembers("" + (PrintMember(ms[0], fmt, depth + 1, |ms| > 1) + PrintMembers(ms[1..], fmt, depth + 1)
                          + (Indent(fmt, depth) + ("}" + rest))), d + 1) == Ok(ms, rest)
    ensures ParsesAsObject(Print(Object(ms), fmt, depth) + rest, d, ms, rest)
  {
    var nl, close, w := NewLine(fmt), Indent(fmt, depth), Indent(fmt, depth + 1);
    var first, more := PrintMember(ms[0], fmt, depth + 1, |ms| > 1), PrintMembers(ms[1..], fmt, depth + 1);
    ObjectFromMembers(nl, w, first, more, close, ms, rest, d);
    ObjectPrinted(ms, fmt, depth, nl, close, w, first, more);
  }

  lemma ObjectPrinted(ms: seq<Member>, fmt: bool, depth: nat, nl: string, close: string, w: string, first: string, more: string)
    requires ms != [] && nl == NewLine(fmt) && close == Indent(fmt, depth) && w == Indent(fmt, depth + 1)
    requires first == PrintMember(ms[0], fmt, depth + 1, |ms| > 1) && more == PrintMembers(ms[1..], fmt, depth + 1)
    ensures Print(Object(ms), fmt, depth) == "{" + nl + (w + first + more) + close + "}"
  {
  }

  /** Key, colon and value of one member. */
  lemma {:induction false} ParsePrintMember(w: string, m: Member, fmt: bool, depth: nat, d: nat, after: string)
    requires AllSpace(w)
    requires NulFree(m.key) && NulFreeTree(m.value) && Delimited(after) && d + Height(m.value) <= NESTING_LIMIT
    ensures ParseMember(w + (Quote(m.key) + (":" + AfterColon(fmt)) + Print(m.value, fmt, depth) + after), d)
         == Ok(m, after)
    decreases m, 3
  {
    var value := Print(m.value, fmt, depth);
    var sp := AfterColon(fmt);
    var t := Quote(m.key) + (":" + AfterColon(fmt)) + value + after;
    var c := ":" + (sp + (value + after));
    assert t == Quote(m.key) + c;
    SkipSpaces(w, t);
    ParseQuote(m.key, c);
    SkipNone(c);
    PrintStarts(m.value, fmt, depth);
    SkipSpaces(sp, value + after);
    assert c[1..] == sp + (value + after);
    ParsePrintValue(m.value, fmt, depth, d, after);
  }

  lemma MembersFromLast(w: string, head: string, nl: string, close: string, m: Member, rest: string, d: nat)
    requires d <= NESTING_LIMIT
    requires AllSpace(nl)
    requires AllSpace(close)
    requires ParseMember(w + (head + (nl + close + ("}" + rest))), d) == Ok(m, nl + close + ("}" + rest))
    ensures ParseMembers(w + (head + "" + nl + "" + (close + ("}" + rest))), d) == Ok([m], rest)
  {
    SpaceConcat(nl, close);
    MembersLast(w + (head + (nl + close + ("}" + rest))), m, nl + close, rest, d);
    LastText(w, head, nl, close, rest);
  }

  lemma LastText(w: string, head: string, nl: string, close: string, rest: string)
    ensures w + (head + "" + nl + "" + (close + ("}" + rest))) == w + (head + (nl + close + ("}" + rest)))
  {
  }

  lemma MembersFromMore(w: string, head: string, nl: string, ind: string, first: string, more: string, tail: string,
                        m: Member, ms: seq<Member>, rest: string, d: nat)
    requires d <= NESTING_LIMIT
    requires ParseMember(w + (head + ("," + (nl + ind + (first + more + tail)))), d)
          == Ok(m, "," + (nl + ind + (first + more + tail)))
    requires ParseMembers(nl + ind + (first + more + tail), d) == Ok(ms, rest)
    ensures ParseMembers(w + (head + "," + nl + (ind + first + more) + tail), d) == Ok([m] + ms, rest)
  {
    var next := nl + ind + (first + more + tail);
    MembersMore(w + (head + ("," + next)), m, next, ms, rest, d);
    MoreText(w, head, nl, ind, first, more, tail);
  }

  lemma MoreText(w: string, head: string, nl: string, ind: string, first: string, more: string, tail: string)
    ensures w + (head + "," + nl + (ind + first + more) + tail) == w + (head + ("," + (nl + ind + (first + more + tail))))
  {
  }

  lemma TailNulFreeMembers(ms: seq<Member>)
    requires ms != [] && MembersNulFree(ms)
    ensures NulFree(ms[0].key) && NulFreeTree(ms[0].value) && MembersNulFree(ms[1..])
    ensures Height(ms[0].value) <= MembersHeight(ms) && MembersHeight(ms[1..]) <= MembersHeight(ms)
  {
  }

  /** The member loop, from the first quote of `ms[0]` on. */
  lemma {:induction false} ParsePrintMembers(w: string, ms: seq<Member>, fmt: bool, depth: nat, d: nat, close: string, rest: string)
    requires AllSpace(w)
    requires AllSpace(close)
    requires ms != [] && MembersNulFree(ms) && d + MembersHeight(ms) <= NESTING_LIMIT
    ensures ParseMembers(w + (PrintMember(ms[0], fmt, depth, |ms| > 1) + PrintMembers(ms[1..], fmt, depth) + (close + ("}" + rest))), d)
         == Ok(ms, rest)
    decreases ms, 1
  {
    var m, more := ms[0], ms[1..];
    var nl := NewLine(fmt);
    var tail := close + ("}" + rest);
    var head := Quote(m.key) + (":" + AfterColon(fmt)) + Print(m.value, fmt, depth);
    TailNulFreeMembers(ms);
    if more == [] {
      ParsePrintMember(w, m, fmt, depth, d, nl + close + ("}" + rest));
      MembersFromLast(w, head, nl, close, m, rest, d);
      ConsTail(ms);
    } else {
      var ind := Indent(fmt, depth);
      var first, others := PrintMember(more[0], fmt, depth, |more| > 1), PrintMembers(more[1..], fmt, depth);
      SpaceConcat(nl, ind);
      ParsePrintMember(w, m, fmt, depth, d, "," + (nl + ind + (first + others + tail)));
      ParsePrintMembers(nl + ind, more, fmt, depth, d, close, rest);
      MembersFromMore(w, head, nl, ind, first, others, tail, m, more, rest, d);
      ConsTail(ms);
    }
  }

  /** Parse after print is the identity, and the whole text is consumed. */
  lemma ParsePrintRoundTrip(v: Json, fmt: bool)
    requires NulFreeTree(v) && Height(v) <= NESTING_LIMIT
    ensures Parse(Print(v, fmt, 0), true) == Ok(v, [NUL])
    ensures Parse(Print(v, fmt, 0), false) == Ok(v, [NUL])
  {
    var t := Print(v, fmt, 0);
    var r := t + [NUL];
    PrintStarts(v, fmt, 0);
    assert r[0] == t[0];
    NoBom(r);
    SkipNone(r);
    ParsePrintValue(v, fmt, 0, 0, [NUL]);
    SkipEnd();
  }

  lemma NoBom(r: string)
    requires r != "" && r[0] != '\U{00ef}'
    ensures SkipBom(r) == r
  {
    PrefixHead(BOM, r);
  }

  lemma SkipEnd()
    ensures Skip([NUL]) == [NUL]
  {
    assert [NUL][1..] == "" && DropSpace("") == "";
    assert DropSpace([NUL]) == "";
  }

  // ----- \u escapes through the whole string parser

  function EscapeScalars(cs: seq<nat>): string
    requires forall i :: 0 <= i < |cs| ==> Scalar(cs[i])
  {
    if cs == [] then "" else EscapeScalar(cs[0]) + EscapeScalars(cs[1..])
  }

  lemma ScanScalar(c: nat, t: string)
    requires Scalar(c)
    ensures ScanEnd(EscapeScalar(c) + t) ==
            if ScanEnd(t).None? then None else Some(|EscapeScalar(c)| + ScanEnd(t).value)
  {
    if c < 0x10000 {
      HexPlain(c);
      ScanLiteral(Hex4(c), t);
    } else {
      var hi, lo := SurrogateHalves(c);
      HexPlain(0xD800 + hi);
      HexPlain(0xDC00 + lo);
      ScanPair(Hex4(0xD800 + hi), Hex4(0xDC00 + lo), t);
      assert EscapeScalar(c) == "\\u" + Hex4(0xD800 + hi) + "\\u" + Hex4(0xDC00 + lo);
    }
  }

  lemma ScanPair(a: string, b: string, t: string)
    requires |a| == 4 && '"' !in a && '\\' !in a && |b| == 4 && '"' !in b && '\\' !in b
    ensures ScanEnd("\\u" + a + "\\u" + b + t) == if ScanEnd(t).None? then None else Some(12 + ScanEnd(t).value)
  {
    ScanLiteral(b, t);
    ScanLiteral(a, "\\u" + b + t);
    PairText(a, b, t);
  }

  lemma PairText(a: string, b: string, t: string)
    ensures "\\u" + a + "\\u" + b + t == "\\u" + a + ("\\u" + b + t)
  {
  }

  lemma {:induction false} ScanScalars(cs: seq<nat>, rest: string)
    requires forall i :: 0 <= i < |cs| ==> Scalar(cs[i])
    ensures ScanEnd(EscapeScalars(cs) + ("\"" + rest)) == Some(|EscapeScalars(cs)|)
  {
    if cs == [] {
      assert EscapeScalars(cs) + ("\"" + rest) == "\"" + rest;
    } else {
      ScanScalars(cs[1..], rest);
      ScanScalar(cs[0], EscapeScalars(cs[1..]) + ("\"" + rest));
      Associative(EscapeScalar(cs[0]), EscapeScalars(cs[1..]), "\"" + rest);
    }
  }

  lemma {:induction false} UnescapeScalars(cs: seq<nat>)
    requires forall i :: 0 <= i < |cs| ==> Scalar(cs[i])
    ensures Unescape(EscapeScalars(cs)) == Some(Utf8All(cs))
  {
    if cs != [] {
      UnescapeScalars(cs[1..]);
      var e, t := EscapeScalar(cs[0]), EscapeScalars(cs[1..]);
      Utf16LiteralScalar(cs[0], t);
      UnescapeLiteral(e, t, Utf8(cs[0]));
    }
  }

  lemma {:induction false} Utf8NulFree(cs: seq<nat>)
    requires forall i :: 0 <= i < |cs| ==> Scalar(cs[i])
    requires forall i :: 0 <= i < |cs| ==> cs[i] != 0
    ensures NulFree(Utf8All(cs))
  {
    if cs != [] {
      Utf8NulFree(cs[1..]);
    }
  }

  /**
   A string written as `\u` escapes of nonzero scalar values parses to their UTF-8 encoding, which
   decodes uniquely back to the scalar values.
   */
  lemma ParseScalars(cs: seq<nat>, rest: string)
    requires forall i :: 0 <= i < |cs| ==> Scalar(cs[i])
    requires forall i :: 0 <= i < |cs| ==> cs[i] != 0
    ensures ParseString("\"" + EscapeScalars(cs) + "\"" + rest) == Ok(Utf8All(cs), rest)
    ensures Decode(Utf8All(cs)) == Some(cs)
  {
    ScanScalars(cs, rest);
    UnescapeScalars(cs);
    Utf8NulFree(cs);
    ParseQuoted(EscapeScalars(cs), Utf8All(cs), rest);
    DecodeUtf8All(cs);
  }
}
