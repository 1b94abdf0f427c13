/**
 The parser reads exactly the language of the grammar: a text that derives a tree is parsed to that tree, whatever
 white space and escapes it uses, and a text that is parsed derives what it was parsed to.
 */
module GrammarParses {
  import opened CString
  import opened Json
  import opened JsonText
  import opened ParsePrint
  import opened Grammar
  import opened GrammarParts

  /** The nesting that is left at a depth. */
  predicate Fits(v: Json, d: nat) {
    Height(v) == 0 || d + Height(v) <= 1000
  }

  predicate Opener(c: char) {
    c as int > 32 && c != ']' && c != '}' && c != ','
  }

  lemma {:induction false} TextStarts(c: Syntax)
    requires Legal(c)
    ensures var t := Text(c);
      && t != "" && Opener(t[0])
      && (t[0] == '"' <==> c.Quoted?) && (t[0] == '[' <==> c.EmptyList? || c.List?)
      && (t[0] == '{' <==> c.EmptyRecord? || c.Record?) && (t[0] == '-' || IsDigit(t[0]) <==> c.Integer?)
  {
    if c.Integer? {
      assert IntegerText(c.negative, c.digits)[0] == if c.negative then '-' else c.digits[0];
    }
  }

  /** White space, a comma or a closing bracket ends any value. */
  lemma {:induction false} FollowsValue(c: Syntax, w: string, x: char, rest: string)
    requires White(w) && (x == ',' || x == ']' || x == '}')
    ensures Follows(c, w + ([x] + rest))
  {
    var t := w + ([x] + rest);
    assert t[0] == if w == "" then x else w[0];
  }

  lemma {:induction false} SkipTo(w: string, x: char, rest: string)
    requires White(w) && x as int > 32
    ensures Skip(w + ([x] + rest)) == [x] + rest
    ensures ([x] + rest)[1..] == rest
  {
    SkipWhite(w, [x] + rest);
  }

  // ----- from the grammar to the parser

  lemma {:induction false} WordRead(word: Json, rest: string, d: nat)
    requires word.Null? || word.False? || word.True?
    ensures ParseValue(WordText(word) + rest, d) == Ok(word, rest)
  {
    var r := WordText(word) + rest;
    assert r[|WordText(word)|..] == rest && WordText(word) <= r;
    if word.False? {
      PrefixHead("null", r);
    } else if word.True? {
      PrefixHead("null", r);
      PrefixHead("false", r);
    }
  }

  lemma {:induction false} ValueRead(c: Syntax, rest: string, d: nat)
    requires Legal(c) && Follows(c, rest) && Fits(Tree(c), d)
    ensures ParseValue(Text(c) + rest, d) == Ok(Tree(c), rest)
    decreases c, 2
  {
    var r := Text(c) + rest;
    TextStarts(c);
    assert r[0] == Text(c)[0];
    match c
    case Word(word) => WordRead(word, rest, d);
    case Integer(negative, digits) =>
      NumberBranch(r, d);
      NumberRead(negative, digits, rest);
    case Quoted(literal) =>
      StringBranch(r, d);
      LiteralRead(literal, rest);
    case EmptyList(blank) =>
      ArrayBranch(r, d);
      EmptyListRead(blank, rest, d);
    case List(es) =>
      ArrayBranch(r, d);
      assert LegalElements(es);
      ListRead(es, rest, d);
    case EmptyRecord(blank) =>
      ObjectBranch(r, d);
      EmptyRecordRead(blank, rest, d);
    case Record(es) =>
      ObjectBranch(r, d);
      assert LegalEntries(es);
      RecordRead(es, rest, d);
  }

  lemma {:induction false} EmptyListRead(blank: string, rest: string, d: nat)
    requires White(blank) && d < NESTING_LIMIT
    ensures ParseArray("[" + blank + "]" + rest, d) == Ok(Array([]), rest)
  {
    assert ("[" + blank + "]" + rest)[1..] == blank + ([']'] + rest);
    SkipTo(blank, ']', rest);
  }

  lemma {:induction false} EmptyRecordRead(blank: string, rest: string, d: nat)
    requires White(blank) && d < NESTING_LIMIT
    ensures ParseObject("{" + blank + "}" + rest, d) == Ok(Object([]), rest)
  {
    assert ("{" + blank + "}" + rest)[1..] == blank + (['}'] + rest);
    SkipTo(blank, '}', rest);
  }

  lemma {:induction false} ArrayOf(body: string, s: string, items: seq<Json>, rest: string, d: nat)
    requires d < NESTING_LIMIT && Skip(body) == s != "" && Opener(s[0]) && ParseItems(body, d + 1) == Ok(items, rest)
    ensures ParseArray("[" + body, d) == Ok(Array(items), rest)
  {
    assert ("[" + body)[1..] == body;
    SkipTwice(body);
    ItemsSkipped(body, d + 1);
    ArrayStarts("[" + body, s, d);
  }

  lemma {:induction false} ArrayStarts(r: string, s: string, d: nat)
    requires r != "" && r[0] == '[' && d < NESTING_LIMIT && Skip(r[1..]) == s != "" && s[0] != ']'
    ensures ParseArray(r, d) ==
            if ParseItems(s, d + 1).Fail? then Fail else Ok(Array(ParseItems(s, d + 1).value), ParseItems(s, d + 1).rest)
  {
  }

  lemma {:induction false} ObjectOf(body: string, s: string, ms: seq<Member>, rest: string, d: nat)
    requires d < NESTING_LIMIT && Skip(body) == s != "" && Opener(s[0]) && ParseMembers(body, d + 1) == Ok(ms, rest)
    ensures ParseObject("{" + body, d) == Ok(Object(ms), rest)
  {
    assert ("{" + body)[1..] == body;
    SkipTwice(body);
    MembersSkipped(body, d + 1);
    ObjectStarts("{" + body, s, d);
  }

  lemma {:induction false} ObjectStarts(r: string, s: string, d: nat)
    requires r != "" && r[0] == '{' && d < NESTING_LIMIT && Skip(r[1..]) == s != "" && s[0] != '}'
    ensures ParseObject(r, d) ==
            if ParseMembers(s, d + 1).Fail? then Fail
            else Ok(Object(ParseMembers(s, d + 1).value), ParseMembers(s, d + 1).rest)
  {
  }

  /** What follows the opening bracket. */
  lemma {:induction false} OpenText(open: string, t: string, close: string, rest: string)
    ensures open + t + close + rest == open + (t + (close + rest))
  {
  }

  lemma {:induction false} ListRead(es: seq<Element>, rest: string, d: nat)
    requires es != [] && LegalElements(es) && d + 1 + ItemsHeight(ElementsTree(es)) <= NESTING_LIMIT
    ensures ParseArray("[" + ElementsText(es) + "]" + rest, d) == Ok(Array(ElementsTree(es)), rest)
    decreases es, 1
  {
    ElementsRead(es, rest, d + 1);
    var s := ElementsStart(es, "]" + rest);
    ArrayOf(ElementsText(es) + ("]" + rest), s, ElementsTree(es), rest, d);
    OpenText("[", ElementsText(es), "]", rest);
  }

  lemma {:induction false} Front(one: string, more: string, t: string)
    ensures one + "," + more + t == one + ([','] + (more + t))
  {
  }

  /** What a list of elements or entries begins with. */
  lemma {:induction false} StartOf(w: string, x: string, t: string)
    requires White(w) && x != "" && Opener(x[0])
    ensures Skip(w + (x + t)) == x + t && (x + t)[0] == x[0]
  {
    SkipWhite(w, x + t);
  }

  lemma {:induction false} ElementsStart(es: seq<Element>, t: string) returns (s: string)
    requires es != [] && LegalElements(es)
    ensures Skip(ElementsText(es) + t) == s != "" && Opener(s[0])
  {
    var e := es[0];
    assert LegalElement(e);
    TextStarts(e.item);
    var u := if |es| == 1 then t else [','] + (ElementsText(es[1..]) + t);
    if |es| > 1 {
      Front(ElementText(e), ElementsText(es[1..]), t);
    }
    assert ElementsText(es) + t == ElementText(e) + u;
    ElementPieces(e, u);
    s := Text(e.item) + (e.after + u);
    StartOf(e.before, Text(e.item), e.after + u);
  }

  lemma {:induction false} ElementPieces(e: Element, t: string)
    ensures ElementText(e) + t == e.before + (Text(e.item) + (e.after + t))
  {
  }

  /** One round of the element loop. */
  lemma {:induction false} RoundLast(r: string, t: string, x: Json, after: string, rest: string, d: nat)
    requires d <= NESTING_LIMIT && Skip(r) == t && ParseValue(t, d) == Ok(x, after + ([']'] + rest)) && White(after)
    ensures ParseItems(r, d) == Ok([x], rest)
  {
    SkipTo(after, ']', rest);
  }

  lemma {:induction false} RoundMore(r: string, t: string, x: Json, after: string, tail: string, xs: seq<Json>, rest: string, d: nat)
    requires d <= NESTING_LIMIT && Skip(r) == t && ParseValue(t, d) == Ok(x, after + ([','] + tail)) && White(after)
    requires ParseItems(tail, d) == Ok(xs, rest)
    ensures ParseItems(r, d) == Ok([x] + xs, rest)
  {
    SkipTo(after, ',', tail);
  }

  lemma {:induction false} ElementRead(e: Element, x: char, tail: string, d: nat)
    requires LegalElement(e) && Fits(Tree(e.item), d) && (x == ',' || x == ']')
    ensures var t := Text(e.item) + (e.after + ([x] + tail));
      Skip(e.before + t) == t && ParseValue(t, d) == Ok(Tree(e.item), e.after + ([x] + tail))
    decreases e
  {
    var t := Text(e.item) + (e.after + ([x] + tail));
    TextStarts(e.item);
    assert t[0] == Text(e.item)[0];
    SkipWhite(e.before, t);
    FollowsValue(e.item, e.after, x, tail);
    ValueRead(e.item, e.after + ([x] + tail), d);
  }

  lemma {:induction false} ElementsTail(es: seq<Element>, d: nat)
    requires es != [] && LegalElements(es) && d + ItemsHeight(ElementsTree(es)) <= NESTING_LIMIT
    ensures LegalElement(es[0]) && Fits(Tree(es[0].item), d) && LegalElements(es[1..])
    ensures d + ItemsHeight(ElementsTree(es[1..])) <= NESTING_LIMIT
    ensures ElementsTree(es) == [Tree(es[0].item)] + ElementsTree(es[1..])
  {
    assert LegalElement(es[0]);
    assert ElementsTree(es)[1..] == ElementsTree(es[1..]);
  }

  lemma {:induction false} ElementsLast(es: seq<Element>, x: Json, rest: string, d: nat)
    requires |es| == 1 && d <= NESTING_LIMIT && White(es[0].after)
    requires var t := Text(es[0].item) + (es[0].after + ([']'] + rest));
      Skip(es[0].before + t) == t && ParseValue(t, d) == Ok(x, es[0].after + ([']'] + rest))
    ensures ParseItems(ElementsText(es) + ("]" + rest), d) == Ok([x], rest)
  {
    var e, u := es[0], [']'] + rest;
    assert "]" + rest == u;
    ElementPieces(e, u);
    RoundLast(ElementText(e) + u, Text(e.item) + (e.after + u), x, e.after, rest, d);
  }

  lemma {:induction false} ElementsMore(es: seq<Element>, x: Json, xs: seq<Json>, tail: string, rest: string, d: nat)
    requires |es| > 1 && d <= NESTING_LIMIT && White(es[0].after) && tail == ElementsText(es[1..]) + ("]" + rest)
    requires var t := Text(es[0].item) + (es[0].after + ([','] + tail));
      Skip(es[0].before + t) == t && ParseValue(t, d) == Ok(x, es[0].after + ([','] + tail))
    requires ParseItems(tail, d) == Ok(xs, rest)
    ensures ParseItems(ElementsText(es) + ("]" + rest), d) == Ok([x] + xs, rest)
  {
    var e, u := es[0], [','] + tail;
    Front(ElementText(e), ElementsText(es[1..]), "]" + rest);
    ElementPieces(e, u);
    RoundMore(ElementText(e) + u, Text(e.item) + (e.after + u), x, e.after, tail, xs, rest, d);
  }

  lemma {:induction false} ElementsRead(es: seq<Element>, rest: string, d: nat)
    requires es != [] && LegalElements(es) && d + ItemsHeight(ElementsTree(es)) <= NESTING_LIMIT
    ensures ParseItems(ElementsText(es) + ("]" + rest), d) == Ok(ElementsTree(es), rest)
    decreases es, 0
  {
    var e := es[0];
    ElementsTail(es, d);
    if |es| == 1 {
      ElementRead(e, ']', rest, d);
      ElementsLast(es, Tree(e.item), rest, d);
      assert es[1..] == [];
      assert [Tree(e.item)] + [] == [Tree(e.item)];
    } else {
      var tail := ElementsText(es[1..]) + ("]" + rest);
      ElementRead(e, ',', tail, d);
      ElementsRead(es[1..], rest, d);
      ElementsMore(es, Tree(e.item), ElementsTree(es[1..]), tail, rest, d);
    }
  }

  // the same for objects

  lemma {:induction false} RecordRead(es: seq<Entry>, rest: string, d: nat)
    requires es != [] && LegalEntries(es) && d + 1 + MembersHeight(EntriesTree(es)) <= NESTING_LIMIT
    ensures ParseObject("{" + EntriesText(es) + "}" + rest, d) == Ok(Object(EntriesTree(es)), rest)
    decreases es, 1
  {
    EntriesRead(es, rest, d + 1);
    var s := EntriesStart(es, "}" + rest);
    ObjectOf(EntriesText(es) + ("}" + rest), s, EntriesTree(es), rest, d);
    OpenText("{", EntriesText(es), "}", rest);
  }

  lemma {:induction false} EntriesStart(es: seq<Entry>, t: string) returns (s: string)
    requires es != [] && LegalEntries(es)
    ensures Skip(EntriesText(es) + t) == s != "" && Opener(s[0])
  {
    var e := es[0];
    assert LegalEntry(e);
    var u := if |es| == 1 then t else [','] + (EntriesText(es[1..]) + t);
    if |es| > 1 {
      Front(EntryText(e), EntriesText(es[1..]), t);
    }
    assert EntriesText(es) + t == EntryText(e) + u;
    EntryPieces(e, u);
    var more := e.gap + ([':'] + (e.space + (Text(e.item) + (e.after + u))));
    s := InQuotes(e.key) + more;
    assert InQuotes(e.key)[0] == '"';
    StartOf(e.before, InQuotes(e.key), more);
  }

  lemma {:induction false} EntryPieces(e: Entry, t: string)
    ensures EntryText(e) + t ==
            e.before + (InQuotes(e.key) + (e.gap + ([':'] + (e.space + (Text(e.item) + (e.after + t))))))
  {
  }

  /** Key, colon and value. */
  lemma {:induction false} MemberOf(r: string, k: string, key: string, c: string, s: string, t: string, x: Json, rest: string, d: nat)
    requires d <= NESTING_LIMIT && Skip(r) == k && ParseString(k) == Ok(key, c)
    requires Skip(c) == [':'] + s && Skip(s) == t && ParseValue(t, d) == Ok(x, rest)
    ensures ParseMember(r, d) == Ok(Member(key, x), rest)
  {
    assert ([':'] + s)[1..] == s;
  }

  lemma {:induction false} EntryRead(e: Entry, x: char, tail: string, d: nat)
    requires d <= NESTING_LIMIT && LegalEntry(e) && Fits(Tree(e.item), d) && (x == ',' || x == '}')
    ensures ParseMember(EntryText(e) + ([x] + tail), d) ==
            Ok(Member(LiteralValue(e.key), Tree(e.item)), e.after + ([x] + tail))
    decreases e
  {
    var rest := e.after + ([x] + tail);
    var t := Text(e.item) + rest;
    var s := e.space + t;
    var c := e.gap + ([':'] + s);
    var k := InQuotes(e.key) + c;
    EntryPieces(e, [x] + tail);
    assert k[0] == InQuotes(e.key)[0] == '"';
    SkipWhite(e.before, k);
    LiteralRead(e.key, c);
    SkipTo(e.gap, ':', s);
    TextStarts(e.item);
    assert t[0] == Text(e.item)[0];
    SkipWhite(e.space, t);
    FollowsValue(e.item, e.after, x, tail);
    ValueRead(e.item, rest, d);
    MemberOf(e.before + k, k, LiteralValue(e.key), c, s, t, Tree(e.item), rest, d);
  }

  lemma {:induction false} EntriesTail(es: seq<Entry>, d: nat)
    requires es != [] && LegalEntries(es) && d + MembersHeight(EntriesTree(es)) <= NESTING_LIMIT
    ensures LegalEntry(es[0]) && Fits(Tree(es[0].item), d) && LegalEntries(es[1..])
    ensures d + MembersHeight(EntriesTree(es[1..])) <= NESTING_LIMIT
    ensures EntriesTree(es) == [Member(LiteralValue(es[0].key), Tree(es[0].item))] + EntriesTree(es[1..])
  {
    assert LegalEntry(es[0]);
    assert EntriesTree(es)[1..] == EntriesTree(es[1..]);
  }

  lemma {:induction false} PairLast(r: string, m: Member, after: string, rest: string, d: nat)
    requires d <= NESTING_LIMIT && ParseMember(r, d) == Ok(m, after + (['}'] + rest)) && White(after)
    ensures ParseMembers(r, d) == Ok([m], rest)
  {
    SkipTo(after, '}', rest);
  }

  lemma {:induction false} PairMore(r: string, m: Member, after: string, tail: string, ms: seq<Member>, rest: string, d: nat)
    requires d <= NESTING_LIMIT && ParseMember(r, d) == Ok(m, after + ([','] + tail)) && White(after)
    requires ParseMembers(tail, d) == Ok(ms, rest)
    ensures ParseMembers(r, d) == Ok([m] + ms, rest)
  {
    SkipTo(after, ',', tail);
  }

  lemma {:induction false} EntriesLast(es: seq<Entry>, m: Member, rest: string, d: nat)
    requires |es| == 1 && d <= NESTING_LIMIT && White(es[0].after)
    requires ParseMember(EntryText(es[0]) + (['}'] + rest), d) == Ok(m, es[0].after + (['}'] + rest))
    ensures ParseMembers(EntriesText(es) + ("}" + rest), d) == Ok([m], rest)
  {
    assert "}" + rest == ['}'] + rest;
    PairLast(EntryText(es[0]) + (['}'] + rest), m, es[0].after, rest, d);
  }

  lemma {:induction false} EntriesMore(es: seq<Entry>, m: Member, ms: seq<Member>, tail: string, rest: string, d: nat)
    requires |es| > 1 && d <= NESTING_LIMIT && White(es[0].after) && tail == EntriesText(es[1..]) + ("}" + rest)
    requires ParseMember(EntryText(es[0]) + ([','] + tail), d) == Ok(m, es[0].after + ([','] + tail))
    requires ParseMembers(tail, d) == Ok(ms, rest)
    ensures ParseMembers(EntriesText(es) + ("}" + rest), d) == Ok([m] + ms, rest)
  {
    Front(EntryText(es[0]), EntriesText(es[1..]), "}" + rest);
    PairMore(EntryText(es[0]) + ([','] + tail), m, es[0].after, tail, ms, rest, d);
  }

  lemma {:induction false} EntriesRead(es: seq<Entry>, rest: string, d: nat)
    requires es != [] && LegalEntries(es) && d + MembersHeight(EntriesTree(es)) <= NESTING_LIMIT
    ensures ParseMembers(EntriesText(es) + ("}" + rest), d) == Ok(EntriesTree(es), rest)
    decreases es, 0
  {
    var e := es[0];
    EntriesTail(es, d);
    var m := Member(LiteralValue(e.key), Tree(e.item));
    if |es| == 1 {
      EntryRead(e, '}', rest, d);
      EntriesLast(es, m, rest, d);
      assert es[1..] == [];
      assert [m] + [] == [m];
    } else {
      var tail := EntriesText(es[1..]) + ("}" + rest);
      EntryRead(e, ',', tail, d);
      EntriesRead(es[1..], rest, d);
      EntriesMore(es, m, EntriesTree(es[1..]), tail, rest, d);
    }
  }

  // ----- from the parser to the grammar

  /** `c` is the syntax of what was read from `r`. */
  ghost predicate Derives(c: Syntax, r: string, v: Json, rest: string) {
    Legal(c) && Tree(c) == v && r == Text(c) + rest && Follows(c, rest)
  }

  lemma {:induction false} WordDerived(word: Json, r: string)
    requires (word.Null? || word.False? || word.True?) && WordText(word) <= r
    ensures Derives(Word(word), r, word, r[|WordText(word)|..])
  {
  }

  lemma {:induction false} ValueDerived(r: string, d: nat) returns (c: Syntax)
    requires ParseValue(r, d).Ok?
    ensures Derives(c, r, ParseValue(r, d).value, ParseValue(r, d).rest)
    decreases |r|, 1
  {
    if "null" <= r {
      c := Word(Null);
      WordDerived(Null, r);
    } else if "false" <= r {
      c := Word(False);
      WordDerived(False, r);
    } else if "true" <= r {
      c := Word(True);
      WordDerived(True, r);
    } else if r[0] == '"' {
      var l := LiteralDerived(r);
      c := Quoted(l);
    } else if r[0] == '[' {
      c := ArrayDerived(r, d);
    } else if r[0] == '{' {
      c := ObjectDerived(r, d);
    } else {
      var negative, digits := NumberDerived(r);
      c := Integer(negative, digits);
    }
  }

  lemma {:induction false} SkipTwice(r: string)
    ensures Skip(Skip(r)) == Skip(r)
  {
    var w := DropSplits(r);
    var t := DropSpace(r);
    if t != "" {
      SkipNone(t);
    } else if r != "" {
      assert w + "" == w;
      var s := Skip(r);
      assert |s| == 1 && Space(s[0]) && s[1..] == "";
      assert DropSpace(s) == DropSpace("");
      assert s[0..] == s;
    }
  }

  lemma {:induction false} EmptyTextIs(r: string, open: char, w: string, s: string, close: char)
    requires r != "" && r[0] == open && s != "" && s[0] == close && r[1..] == w + s
    ensures r == [open] + w + [close] + s[1..]
  {
    assert r == [r[0]] + r[1..] && s == [s[0]] + s[1..];
  }

  lemma {:induction false} BracketText(r: string, open: char, body: string, close: char, rest: string)
    requires r != "" && r[0] == open && r[1..] == body + ([close] + rest)
    ensures r == [open] + body + [close] + rest
  {
    assert r == [r[0]] + r[1..];
  }

  lemma {:induction false} ArrayParts(r: string, s: string, d: nat)
    requires r != "" && r[0] == '[' && s == Skip(r[1..]) && ParseArray(r, d).Ok?
    ensures d < NESTING_LIMIT && s != ""
    ensures s[0] == ']' ==> ParseArray(r, d) == Ok(Array([]), s[1..])
    ensures s[0] != ']' ==>
              var p := ParseItems(r[1..], d + 1); p.Ok? && ParseArray(r, d) == Ok(Array(p.value), p.rest)
  {
    if s[0] != ']' {
      ArrayStarts(r, s, d);
      SkipTwice(r[1..]);
      ItemsSkipped(r[1..], d + 1);
    }
  }

  /** The element loop after its first value. */
  function AfterItem(v: Parsed<Json>, d: nat): Parsed<seq<Json>>
    requires d <= NESTING_LIMIT
  {
    if v.Fail? then Fail
    else
      var s := Skip(v.rest);
      if s == "" then Fail
      else if s[0] == ',' then
        var more := ParseItems(s[1..], d);
        if more.Fail? then Fail else Ok([v.value] + more.value, more.rest)
      else if s[0] == ']' then Ok([v.value], s[1..])
      else Fail
  }

  lemma {:induction false} ItemsUnfold(r: string, t: string, d: nat)
    requires d <= NESTING_LIMIT && Skip(r) == t
    ensures ParseItems(r, d) == AfterItem(ParseValue(t, d), d)
  {
  }

  lemma {:induction false} ItemsSkipped(r: string, d: nat)
    requires d <= NESTING_LIMIT && Skip(Skip(r)) == Skip(r)
    ensures ParseItems(Skip(r), d) == ParseItems(r, d)
  {
    ItemsUnfold(r, Skip(r), d);
    ItemsUnfold(Skip(r), Skip(r), d);
  }

  lemma {:induction false} ArrayDerived(r: string, d: nat) returns (c: Syntax)
    requires r != "" && r[0] == '[' && ParseArray(r, d).Ok?
    ensures Derives(c, r, ParseArray(r, d).value, ParseArray(r, d).rest)
    decreases |r|, 0
  {
    var s := Skip(r[1..]);
    ArrayParts(r, s, d);
    if s[0] == ']' {
      c := EmptyArrayDerived(r, s);
    } else {
      var es := ItemsDerived(r[1..], d + 1);
      c := ListDerived(r, es, ParseItems(r[1..], d + 1).value, ParseItems(r[1..], d + 1).rest);
    }
  }

  lemma {:induction false} EmptyArrayDerived(r: string, s: string) returns (c: Syntax)
    requires r != "" && r[0] == '[' && s == Skip(r[1..]) != "" && s[0] == ']'
    ensures Derives(c, r, Array([]), s[1..])
  {
    var w := SkipSplits(r[1..]);
    EmptyTextIs(r, '[', w, s, ']');
    c := EmptyList(w);
  }

  lemma {:induction false} ListDerived(r: string, es: seq<Element>, items: seq<Json>, rest: string) returns (c: Syntax)
    requires r != "" && r[0] == '[' && ItemsFrom(es, r[1..], items, rest)
    ensures Derives(c, r, Array(items), rest)
  {
    BracketText(r, '[', ElementsText(es), ']', rest);
    c := List(es);
    assert Legal(c);
  }

  /** `es` is the syntax of what the element loop read from `r`. */
  ghost predicate ItemsFrom(es: seq<Element>, r: string, items: seq<Json>, rest: string) {
    es != [] && LegalElements(es) && ElementsTree(es) == items && r == ElementsText(es) + ([']'] + rest)
  }

  lemma {:induction false} ValueVisible(c: Syntax, r: string, v: Json, rest: string)
    requires Derives(c, r, v, rest)
    ensures r != "" && r[0] as int > 32
  {
    TextStarts(c);
    assert r[0] == Text(c)[0];
  }

  /** White space, a value, white space. */
  lemma {:induction false} ElementDerived(r: string, c: Syntax, v: Json, t: string) returns (e: Element)
    requires Derives(c, Skip(r), v, t) && Skip(t) != "" && Skip(t)[0] as int > 32
    ensures LegalElement(e) && Tree(e.item) == v && r == ElementText(e) + Skip(t)
  {
    ValueVisible(c, Skip(r), v, t);
    var before := SkipSplits(r);
    var after := SkipSplits(t);
    e := Element(before, c, after);
    assert before + (Text(c) + (after + Skip(t))) == before + Text(c) + after + Skip(t);
  }

  lemma {:induction false} OneItem(e: Element, r: string, x: Json, s: string)
    requires LegalElement(e) && Tree(e.item) == x && s != "" && s[0] == ']' && r == ElementText(e) + s
    ensures ItemsFrom([e], r, [x], s[1..])
  {
    assert [e][1..] == [] && ElementsTree([]) == [];
    assert [x] + [] == [x];
    assert s == [']'] + s[1..];
  }

  lemma {:induction false} MoreItems(e: Element, es: seq<Element>, r: string, x: Json, xs: seq<Json>, s: string, rest: string)
    requires LegalElement(e) && Tree(e.item) == x && s != "" && s[0] == ',' && r == ElementText(e) + s
    requires ItemsFrom(es, s[1..], xs, rest)
    ensures ItemsFrom([e] + es, r, [x] + xs, rest)
  {
    var fs := [e] + es;
    assert fs[1..] == es;
    assert s == [','] + s[1..];
    Front(ElementText(e), ElementsText(es), [']'] + rest);
    assert ElementsText(fs) == ElementText(e) + "," + ElementsText(es);
  }

  lemma {:induction false} ItemsDerived(r: string, d: nat) returns (es: seq<Element>)
    requires d <= NESTING_LIMIT && ParseItems(r, d).Ok?
    ensures ItemsFrom(es, r, ParseItems(r, d).value, ParseItems(r, d).rest)
    decreases |r|, 2
  {
    var v := ParseValue(Skip(r), d);
    var c := ValueDerived(Skip(r), d);
    var s := Skip(v.rest);
    var e := ElementDerived(r, c, v.value, v.rest);
    if s[0] == ',' {
      var more := ItemsDerived(s[1..], d);
      MoreItems(e, more, r, v.value, ParseItems(s[1..], d).value, s, ParseItems(s[1..], d).rest);
      es := [e] + more;
    } else {
      OneItem(e, r, v.value, s);
      es := [e];
    }
  }

  lemma {:induction false} ObjectParts(r: string, s: string, d: nat)
    requires r != "" && r[0] == '{' && s == Skip(r[1..]) && ParseObject(r, d).Ok?
    ensures d < NESTING_LIMIT && s != ""
    ensures s[0] == '}' ==> ParseObject(r, d) == Ok(Object([]), s[1..])
    ensures s[0] != '}' ==>
              var p := ParseMembers(r[1..], d + 1); p.Ok? && ParseObject(r, d) == Ok(Object(p.value), p.rest)
  {
    if s[0] != '}' {
      ObjectStarts(r, s, d);
      SkipTwice(r[1..]);
      MembersSkipped(r[1..], d + 1);
    }
  }

  lemma {:induction false} ObjectDerived(r: string, d: nat) returns (c: Syntax)
    requires r != "" && r[0] == '{' && ParseObject(r, d).Ok?
    ensures Derives(c, r, ParseObject(r, d).value, ParseObject(r, d).rest)
    decreases |r|, 0
  {
    var s := Skip(r[1..]);
    ObjectParts(r, s, d);
    if s[0] == '}' {
      c := EmptyObjectDerived(r, s);
    } else {
      var es := MembersDerived(r[1..], d + 1);
      c := RecordDerived(r, es, ParseMembers(r[1..], d + 1).value, ParseMembers(r[1..], d + 1).rest);
    }
  }

  lemma {:induction false} EmptyObjectDerived(r: string, s: string) returns (c: Syntax)
    requires r != "" && r[0] == '{' && s == Skip(r[1..]) != "" && s[0] == '}'
    ensures Derives(c, r, Object([]), s[1..])
  {
    var w := SkipSplits(r[1..]);
    EmptyTextIs(r, '{', w, s, '}');
    c := EmptyRecord(w);
  }

  lemma {:induction false} RecordDerived(r: string, es: seq<Entry>, ms: seq<Member>, rest: string) returns (c: Syntax)
    requires r != "" && r[0] == '{' && MembersFrom(es, r[1..], ms, rest)
    ensures Derives(c, r, Object(ms), rest)
  {
    BracketText(r, '{', EntriesText(es), '}', rest);
    c := Record(es);
    assert Legal(c);
  }

  lemma {:induction false} MembersSkipped(r: string, d: nat)
    requires d <= NESTING_LIMIT && Skip(Skip(r)) == Skip(r)
    ensures ParseMembers(Skip(r), d) == ParseMembers(r, d)
  {
    assert ParseMember(Skip(r), d) == ParseMember(r, d);
  }

  ghost predicate MembersFrom(es: seq<Entry>, r: string, ms: seq<Member>, rest: string) {
    es != [] && LegalEntries(es) && EntriesTree(es) == ms && r == EntriesText(es) + (['}'] + rest)
  }

  lemma {:induction false} OneMember(e: Entry, r: string, m: Member, s: string)
    requires LegalEntry(e) && Member(LiteralValue(e.key), Tree(e.item)) == m && s != "" && s[0] == '}' && r == EntryText(e) + s
    ensures MembersFrom([e], r, [m], s[1..])
  {
    assert [e][1..] == [] && EntriesTree([]) == [];
    assert [m] + [] == [m];
    assert s == ['}'] + s[1..];
  }

  lemma {:induction false} MoreMembers(e: Entry, es: seq<Entry>, r: string, m: Member, ms: seq<Member>, s: string, rest: string)
    requires LegalEntry(e) && Member(LiteralValue(e.key), Tree(e.item)) == m && s != "" && s[0] == ',' && r == EntryText(e) + s
    requires MembersFrom(es, s[1..], ms, rest)
    ensures MembersFrom([e] + es, r, [m] + ms, rest)
  {
    var fs := [e] + es;
    assert fs[1..] == es;
    assert s == [','] + s[1..];
    Front(EntryText(e), EntriesText(es), ['}'] + rest);
    assert EntriesText(fs) == EntryText(e) + "," + EntriesText(es);
  }

  lemma {:induction false} QuoteVisible(k: string)
    requires ParseString(k).Ok?
    ensures k != "" && k[0] == '"'
  {
  }

  lemma {:induction false} EntryTextIs(before: string, key: Literal, gap: string, space: string, c: Syntax, after: string, s: string)
    ensures EntryText(Entry(before, key, gap, space, c, after)) + s ==
            before + (InQuotes(key) + (gap + ([':'] + (space + (Text(c) + (after + s))))))
  {
    EntryPieces(Entry(before, key, gap, space, c, after), s);
  }

  lemma {:induction false} MemberParts(r: string, d: nat) returns (key: string, c: string, s: string)
    requires d <= NESTING_LIMIT && ParseMember(r, d).Ok?
    ensures ParseString(Skip(r)) == Ok(key, c) && Skip(c) == [':'] + s && |c| < |r| && |s| < |r|
    ensures var v := ParseValue(Skip(s), d); v.Ok? && ParseMember(r, d) == Ok(Member(key, v.value), v.rest)
  {
    var k := ParseString(Skip(r));
    key, c, s := k.value, k.rest, Skip(k.rest)[1..];
    assert Skip(c) == [Skip(c)[0]] + s;
  }

  lemma {:induction false} MemberDerived(r: string, d: nat, t: string) returns (e: Entry)
    requires d <= NESTING_LIMIT && ParseMember(r, d).Ok? && Skip(ParseMember(r, d).rest) == t != "" && t[0] as int > 32
    ensures LegalEntry(e) && Member(LiteralValue(e.key), Tree(e.item)) == ParseMember(r, d).value
    ensures r == EntryText(e) + t
    decreases |r|, 2
  {
    var key, c, s := MemberParts(r, d);
    var v := ParseValue(Skip(s), d);
    var item := ValueDerived(Skip(s), d);
    ValueVisible(item, Skip(s), v.value, v.rest);
    e := EntryFrom(r, key, c, s, item, v.value, v.rest, t);
  }

  lemma {:induction false} EntryFrom(r: string, key: string, c: string, s: string, item: Syntax, x: Json, rest: string, t: string)
    returns (e: Entry)
    requires ParseString(Skip(r)) == Ok(key, c) && Skip(c) == [':'] + s && Derives(item, Skip(s), x, rest)
    requires Skip(s) != "" && Skip(s)[0] as int > 32 && Skip(rest) == t != "" && t[0] as int > 32
    ensures LegalEntry(e) && LiteralValue(e.key) == key && Tree(e.item) == x && r == EntryText(e) + t
  {
    QuoteVisible(Skip(r));
    var before := SkipSplits(r);
    var literal := LiteralDerived(Skip(r));
    var gap := SkipSplits(c);
    var space := SkipSplits(s);
    var after := SkipSplits(rest);
    e := Entry(before, literal, gap, space, item, after);
    EntryTextIs(before, literal, gap, space, item, after, t);
  }

  lemma {:induction false} MembersDerived(r: string, d: nat) returns (es: seq<Entry>)
    requires d <= NESTING_LIMIT && ParseMembers(r, d).Ok?
    ensures MembersFrom(es, r, ParseMembers(r, d).value, ParseMembers(r, d).rest)
    decreases |r|, 3
  {
    var m := ParseMember(r, d);
    var s := Skip(m.rest);
    var e := MemberDerived(r, d, s);
    if s[0] == ',' {
      var more := MembersDerived(s[1..], d);
      MoreMembers(e, more, r, m.value, ParseMembers(s[1..], d).value, s, ParseMembers(s[1..], d).rest);
      es := [e] + more;
    } else {
      OneMember(e, r, m.value, s);
      es := [e];
    }
  }

  // ----- the language

  /** `parse_value` reads exactly the texts that derive a tree which is not nested too deep. */
  lemma {:induction false} ParsesExactly(r: string, d: nat, v: Json, rest: string)
    ensures ParseValue(r, d) == Ok(v, rest) <==> Fits(v, d) && exists c :: Derives(c, r, v, rest)
  {
    if ParseValue(r, d) == Ok(v, rest) {
      var c := ValueDerived(r, d);
      ParsedHeight(r, d);
    }
    if Fits(v, d) && exists c :: Derives(c, r, v, rest) {
      var c :| Derives(c, r, v, rest);
      ValueRead(c, rest, d);
    }
  }

  /** A byte order mark is skipped in a buffer of more than four bytes. */
  predicate Marked(content: string, mark: string) {
    mark == "" || (mark == "\U{00ef}\U{00bb}\U{00bf}" && |content| > 4)
  }

  /** A byte order mark, white space, and a value with what comes after it. */
  ghost predicate Document(content: string, v: Json, rest: string) {
    Fits(v, 0) && exists mark, w, c :: IsDocument(content, mark, w, c, v, rest)
  }

  ghost predicate IsDocument(content: string, mark: string, w: string, c: Syntax, v: Json, rest: string) {
    && Marked(content, mark) && White(w) && Legal(c) && Tree(c) == v && Follows(c, rest)
    && content == mark + (w + (Text(c) + rest))
  }

  lemma {:induction false} SkipMark(content: string) returns (mark: string)
    ensures Marked(content, mark) && content == mark + SkipBom(content)
  {
    mark := if |content| > 4 && BOM <= content then BOM else "";
    assert content == content[..|mark|] + content[|mark|..];
  }

  lemma {:induction false} MarkSkipped(content: string, mark: string, w: string, t: string)
    requires Marked(content, mark) && White(w) && t != "" && Opener(t[0]) && t[0] != '\U{00ef}'
    requires content == mark + (w + t)
    ensures Skip(SkipBom(content)) == t
  {
    var u := w + t;
    assert u[0] == if w == "" then t[0] else w[0];
    if mark == "" {
      assert mark + u == u;
      NoBom(u);
    } else {
      assert content[3..] == u;
    }
    SkipWhite(w, t);
  }

  lemma {:induction false} DocumentDerived(content: string, v: Json, rest: string)
    requires ParseValue(Skip(SkipBom(content)), 0) == Ok(v, rest)
    ensures Document(content, v, rest)
  {
    var t := Skip(SkipBom(content));
    ParsedHeight(t, 0);
    var c := ValueDerived(t, 0);
    ValueVisible(c, t, v, rest);
    var mark := SkipMark(content);
    var w := SkipSplits(SkipBom(content));
    assert IsDocument(content, mark, w, c, v, rest);
  }

  lemma {:induction false} DocumentRead(content: string, mark: string, w: string, c: Syntax, v: Json, rest: string)
    requires IsDocument(content, mark, w, c, v, rest) && Fits(v, 0)
    ensures ParseValue(Skip(SkipBom(content)), 0) == Ok(v, rest)
  {
    var t := Text(c) + rest;
    TextStarts(c);
    assert t[0] == Text(c)[0];
    NotMark(c);
    MarkSkipped(content, mark, w, t);
    ValueRead(c, rest, 0);
  }

  /** Without the closing test, parsing succeeds exactly for documents, and stops after the value. */
  lemma {:induction false} ParsesDocument(content: string, v: Json, rest: string)
    ensures ParseContent(content, false) == Ok(v, rest) <==> Document(content, v, rest)
  {
    if ParseContent(content, false) == Ok(v, rest) {
      DocumentDerived(content, v, rest);
    }
    if Document(content, v, rest) {
      var mark, w, c :| IsDocument(content, mark, w, c, v, rest);
      DocumentRead(content, mark, w, c, v, rest);
    }
  }

  lemma {:induction false} NotMark(c: Syntax)
    requires Legal(c)
    ensures Text(c) != "" && Text(c)[0] != '\U{00ef}'
  {
    TextStarts(c);
    if c.Integer? {
      assert Text(c)[0] == '-' || IsDigit(Text(c)[0]);
    }
  }

  /** With it, exactly for documents after which only white space comes before the terminator. */
  lemma {:induction false} ParsesWholeDocument(content: string, v: Json, rest: string)
    ensures ParseContent(content, true) == Ok(v, rest) <==>
            rest == [NUL] && exists w :: White(w) && Document(content, v, w + [NUL])
  {
    var p := ParseContent(content, false);
    if ParseContent(content, true) == Ok(v, rest) {
      ParsesDocument(content, v, p.rest);
      var w := EndsInNul(p.rest);
      assert Document(content, v, w + [NUL]);
    }
    if rest == [NUL] && exists w :: White(w) && Document(content, v, w + [NUL]) {
      var w :| White(w) && Document(content, v, w + [NUL]);
      ParsesDocument(content, v, w + [NUL]);
      WhiteToNul(w);
    }
  }

  lemma {:induction false} EndsInNul(t: string) returns (w: string)
    requires Skip(t) != "" && Skip(t)[0] == NUL
    ensures White(w) && t == w + [NUL] && Skip(t) == [NUL]
  {
    var u := DropSplits(t);
    assert DropSpace(t) == "";
    assert u + "" == u;
    w := t[..|t| - 1];
    assert t == w + [t[|t| - 1]];
  }

  lemma {:induction false} DropAll(t: string)
    requires White(t)
    ensures DropSpace(t) == ""
  {
    if t != "" {
      DropAll(t[1..]);
    }
  }

  lemma {:induction false} WhiteToNul(w: string)
    requires White(w)
    ensures Skip(w + [NUL]) == [NUL]
  {
    DropAll(w + [NUL]);
    assert (w + [NUL])[|w|..] == [NUL];
  }

  /** The grammar is unambiguous: a text has no more than one tree. */
  lemma {:induction false} Unambiguous(c: Syntax, c': Syntax, rest: string, rest': string)
    requires Legal(c) && Legal(c') && Follows(c, rest) && Follows(c', rest') && Text(c) + rest == Text(c') + rest'
    requires Fits(Tree(c), 0) && Fits(Tree(c'), 0)
    ensures Tree(c) == Tree(c') && rest == rest'
  {
    ValueRead(c, rest, 0);
    ValueRead(c', rest', 0);
  }
}
