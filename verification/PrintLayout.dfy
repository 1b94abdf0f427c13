/**
 The layout of formatted output, as a language of texts: where line breaks, tabs and blanks stand, and how many
 tabs there are on each line.
 */
module PrintLayout {
  import opened Json
  import opened Pointer
  import opened Unicode
  import opened JsonText
  import opened ParsePrint

  // ----- reading a text

  /** Where the reader is, outside or inside a string literal. */
  datatype Place =
    | Value(first: bool)   // a value comes, or the end of the array if it is the first
    | Literal(key: bool)   // in a string literal
    | Escaped(key: bool)   // after a backslash in one
    | Ended                // in a bare word or number, or after any other value
    | Keyed                // a colon comes
    | Colon                // the tab after it comes
    | ItemComma            // the blank after it comes
    | MemberComma          // the line break after it comes
    | Brace                // the line break after an opening brace comes
    | FirstLine(tabs: nat)   // at the start of a line: a key or the closing brace comes
    | KeyLine(tabs: nat)     // a key comes
    | CloseLine(tabs: nat)   // the closing brace comes

  /** The brackets and braces that are open, and the place; `Reject` if the text does not have the layout. */
  datatype State = State(open: string, place: Place) | Reject

  predicate Inside(open: string, bracket: char) {
    open != "" && open[|open| - 1] == bracket
  }

  /** A character of a word or a number. */
  predicate Bare(c: char) {
    ('a' <= c <= 'z') || IsDigit(c) || c == '-'
  }

  function Pop(open: string): State
    requires open != ""
  {
    State(open[..|open| - 1], Ended)
  }

  function StartValue(open: string, first: bool, c: char): State {
    if c == '"' then State(open, Literal(false))
    else if c == '{' then State(open + "{", Brace)
    else if c == '[' then State(open + "[", Value(true))
    else if c == ']' && first && Inside(open, '[') then Pop(open)
    else if Bare(c) then State(open, Ended)
    else Reject
  }

  function AfterValue(open: string, c: char): State {
    if Bare(c) then State(open, Ended)
    else if c == ',' && Inside(open, '[') then State(open, ItemComma)
    else if c == ']' && Inside(open, '[') then Pop(open)
    else if c == ',' && Inside(open, '{') then State(open, MemberComma)
    else if c == '\n' && Inside(open, '{') then State(open, CloseLine(0))
    else Reject
  }

  /** A key has as many tabs in front of it as brackets and braces are open, a closing brace one less. */
  function OnLine(open: string, tabs: nat, key: bool, brace: bool, c: char): State {
    if c == '"' && key && tabs == |open| then State(open, Literal(true))
    else if c == '}' && brace && Inside(open, '{') && tabs == |open| - 1 then Pop(open)
    else Reject
  }

  function Next(s: State, c: char): State {
    if s == Reject then Reject
    else
      var open := s.open;
      match s.place
      case Value(first) => StartValue(open, first, c)
      case Literal(key) =>
        if c < ' ' then Reject
        else if c == '"' then State(open, if key then Keyed else Ended)
        else State(open, if c == '\\' then Escaped(key) else Literal(key))
      case Escaped(key) => if c < ' ' then Reject else State(open, Literal(key))
      case Ended => AfterValue(open, c)
      case Keyed => if c == ':' then State(open, Colon) else Reject
      case Colon => if c == '\t' then State(open, Value(false)) else Reject
      case ItemComma => if c == ' ' then State(open, Value(false)) else Reject
      case MemberComma => if c == '\n' then State(open, KeyLine(0)) else Reject
      case Brace => if c == '\n' then State(open, FirstLine(0)) else Reject
      case FirstLine(n) => if c == '\t' then State(open, FirstLine(n + 1)) else OnLine(open, n, true, true, c)
      case KeyLine(n) => if c == '\t' then State(open, KeyLine(n + 1)) else OnLine(open, n, true, false, c)
      case CloseLine(n) => if c == '\t' then State(open, CloseLine(n + 1)) else OnLine(open, n, false, true, c)
  }

  function Read(s: State, t: string): State
    decreases |t|
  {
    if t == "" then s else Read(Next(s, t[0]), t[1..])
  }

  lemma {:induction false} ReadConcat(s: State, a: string, b: string)
    ensures Read(s, a + b) == Read(Read(s, a), b)
    decreases |a|
  {
    if a == "" {
      assert a + b == b;
    } else {
      assert (a + b)[1..] == a[1..] + b;
      ReadConcat(Next(s, a[0]), a[1..], b);
    }
  }

  lemma ReadChar(s: State, c: char)
    ensures Read(s, [c]) == Next(s, c)
  {
    assert [c][1..] == "";
  }

  // ----- strings

  lemma {:induction false} ReadPlain(s: State, t: string)
    requires s.State? && s.place.Literal?
    requires forall i :: 0 <= i < |t| ==> t[i] >= ' ' && t[i] != '"' && t[i] != '\\'
    ensures Read(s, t) == s
  {
    if t != "" {
      ReadPlain(s, t[1..]);
    }
  }

  lemma ReadPair(s: State, c: char)
    requires s.State? && s.place.Literal? && c >= ' '
    ensures Read(s, "\\" + [c]) == s
  {
    ReadConcat(s, "\\", [c]);
    ReadChar(s, '\\');
    ReadChar(Next(s, '\\'), c);
  }

  lemma HexVisible(n: nat)
    requires n < 0x10000
    ensures forall i :: 0 <= i < 4 ==> Hex4(n)[i] >= ' ' && Hex4(n)[i] != '"' && Hex4(n)[i] != '\\'
  {
    HexValueDigit(n / 16 / 16 / 16);
    HexValueDigit(n / 16 / 16 % 16);
    HexValueDigit(n / 16 % 16);
    HexValueDigit(n % 16);
  }

  lemma ReadEscapeChar(s: State, c: char)
    requires s.State? && s.place.Literal?
    ensures Read(s, EscapeChar(c)) == s
  {
    if Control(c) {
      HexVisible(c as int);
      ReadPair(s, 'u');
      ReadPlain(s, Hex4(c as int));
      ReadConcat(s, "\\u", Hex4(c as int));
      assert "\\u" == "\\" + ['u'];
    } else if |EscapeChar(c)| == 2 {
      ReadPair(s, EscapeChar(c)[1]);
      assert EscapeChar(c) == "\\" + [EscapeChar(c)[1]];
    } else {
      ReadPlain(s, [c]);
    }
  }

  lemma {:induction false} ReadEscape(s: State, text: string)
    requires s.State? && s.place.Literal?
    ensures Read(s, Escape(text)) == s
  {
    if text != "" {
      ReadEscapeChar(s, text[0]);
      ReadEscape(s, text[1..]);
      ReadConcat(s, EscapeChar(text[0]), Escape(text[1..]));
    }
  }

  /** From the character before a string literal to the one after it. */
  lemma ReadQuote(s: State, open: string, key: bool, text: string)
    requires Next(s, '"') == State(open, Literal(key))
    ensures Read(s, Quote(text)) == State(open, if key then Keyed else Ended)
  {
    ReadChar(s, '"');
    ReadEscape(State(open, Literal(key)), text);
    ReadChar(State(open, Literal(key)), '"');
    ReadConcat(s, "\"", Escape(text));
    ReadConcat(s, "\"" + Escape(text), "\"");
  }

  // ----- values

  lemma {:induction false} ReadBare(open: string, t: string)
    requires forall i :: 0 <= i < |t| ==> Bare(t[i])
    ensures Read(State(open, Ended), t) == State(open, Ended)
  {
    if t != "" {
      ReadBare(open, t[1..]);
    }
  }

  lemma ReadWord(open: string, first: bool, t: string)
    requires t != "" && forall i :: 0 <= i < |t| ==> Bare(t[i])
    ensures Read(State(open, Value(first)), t) == State(open, Ended)
  {
    ReadBare(open, t[1..]);
  }

  lemma NumberBare(n: Num)
    ensures var t := PrintNumber(n); t != "" && forall i :: 0 <= i < |t| ==> Bare(t[i])
  {
    DecimalDigits(if n < 0 then -n else n);
  }

  lemma {:induction false} ReadTabs(s: State, n: nat, t: string)
    requires |t| == n && forall i :: 0 <= i < n ==> t[i] == '\t'
    requires s.State? && (s.place.FirstLine? || s.place.KeyLine? || s.place.CloseLine?)
    ensures Read(s, t) == State(s.open, s.place.(tabs := s.place.tabs + n))
    decreases n
  {
    if n > 0 {
      ReadTabs(Next(s, '\t'), n - 1, t[1..]);
    }
  }

  /** Formatted values have the layout: read at their depth, they end where they began. */
  lemma {:induction false} ReadPrinted(v: Json, open: string, first: bool)
    ensures Read(State(open, Value(first)), Print(v, true, |open|)) == State(open, Ended)
    decreases v, 1
  {
    var s := State(open, Value(first));
    match v
    case Null => ReadWord(open, first, "null");
    case False => ReadWord(open, first, "false");
    case True => ReadWord(open, first, "true");
    case Number(n) =>
      NumberBare(n);
      ReadWord(open, first, PrintNumber(n));
    case Str(text) => ReadQuote(s, open, false, text);
    case Array(items) =>
      ReadItems(items, open + "[", true);
      ReadArray(open, first, PrintItems(items, true, |open| + 1), if items == [] then Value(true) else Ended);
    case Object(ms) =>
      ReadMembers(ms, open + "{", true);
      ReadObject(open, first, PrintMembers(ms, true, |open| + 1), if ms == [] then FirstLine(0) else CloseLine(0));
  }

  lemma ReadArray(open: string, first: bool, body: string, place: Place)
    requires place == Value(true) || place == Ended
    requires Read(State(open + "[", Value(true)), body) == State(open + "[", place)
    ensures Read(State(open, Value(first)), "[" + body + "]") == State(open, Ended)
  {
    var s := State(open, Value(first));
    ReadChar(s, '[');
    ReadConcat(s, "[", body);
    ReadConcat(s, "[" + body, "]");
    ReadChar(State(open + "[", place), ']');
    assert (open + "[")[..|open|] == open;
  }

  lemma ReadObject(open: string, first: bool, body: string, place: Place)
    requires place == FirstLine(0) || place == CloseLine(0)
    requires Read(State(open + "{", FirstLine(0)), body) == State(open + "{", place)
    ensures Read(State(open, Value(first)), "{" + "\n" + body + Tabs(|open|) + "}") == State(open, Ended)
  {
    var s := State(open, Value(first));
    var inner := State(open + "{", place);
    ReadChar(s, '{');
    ReadChar(Next(s, '{'), '\n');
    ReadConcat(s, "{", "\n");
    ReadConcat(s, "{" + "\n", body);
    ReadConcat(s, "{" + "\n" + body, Tabs(|open|));
    ReadConcat(s, "{" + "\n" + body + Tabs(|open|), "}");
    ReadTabs(inner, |open|, Tabs(|open|));
    ReadChar(Read(inner, Tabs(|open|)), '}');
    assert (open + "{")[..|open|] == open;
  }

  lemma {:induction false} ReadItems(items: seq<Json>, open: string, first: bool)
    requires Inside(open, '[')
    ensures Read(State(open, Value(first)), PrintItems(items, true, |open|)) ==
            State(open, if items == [] then Value(first) else Ended)
    decreases items, 0
  {
    if items != [] {
      ReadPrinted(items[0], open, first);
      if |items| > 1 {
        ReadItems(items[1..], open, false);
        ReadSeparated(open, first, Print(items[0], true, |open|), PrintItems(items[1..], true, |open|));
      }
    }
  }

  lemma ReadSeparated(open: string, first: bool, one: string, more: string)
    requires Inside(open, '[')
    requires Read(State(open, Value(first)), one) == State(open, Ended)
    requires Read(State(open, Value(false)), more) == State(open, Ended)
    ensures Read(State(open, Value(first)), one + ("," + " ") + more) == State(open, Ended)
  {
    var s := State(open, Value(first));
    ReadConcat(s, one, "," + " ");
    ReadConcat(s, one + ("," + " "), more);
    ReadConcat(State(open, Ended), ",", " ");
    ReadChar(State(open, Ended), ',');
    ReadChar(State(open, ItemComma), ' ');
  }

  /** The start of the line for the first member, or for another one. */
  function Line(first: bool): Place {
    if first then FirstLine(0) else KeyLine(0)
  }

  lemma {:induction false} ReadMembers(ms: seq<Member>, open: string, first: bool)
    requires Inside(open, '{')
    ensures Read(State(open, Line(first)), PrintMembers(ms, true, |open|)) ==
            State(open, if ms == [] then Line(first) else CloseLine(0))
    decreases ms, 0
  {
    if ms != [] {
      var m, more := ms[0], |ms| > 1;
      ReadPrinted(m.value, open, false);
      ReadMember(open, first, m.key, Print(m.value, true, |open|), more);
      var s, line := State(open, Line(first)), Tabs(|open|) + PrintMember(m, true, |open|, more);
      ReadConcat(s, line, PrintMembers(ms[1..], true, |open|));
      if more {
        ReadMembers(ms[1..], open, false);
      }
    }
  }

  lemma ReadMember(open: string, first: bool, key: string, value: string, more: bool)
    requires Inside(open, '{') && Read(State(open, Value(false)), value) == State(open, Ended)
    ensures var line := Tabs(|open|) + (Quote(key) + (":" + "\t") + value + (if more then "," else "") + "\n");
      Read(State(open, Line(first)), line) == State(open, if more then KeyLine(0) else CloseLine(0))
  {
    var s := State(open, Line(first));
    var end := if more then "," else "";
    var indented := State(open, Line(first).(tabs := |open|));
    ReadTabs(s, |open|, Tabs(|open|));
    ReadConcat(s, Tabs(|open|), Quote(key) + (":" + "\t") + value + end + "\n");
    ReadQuote(indented, open, true, key);
    ReadKeyAndValue(indented, open, Quote(key), value, end);
  }

  lemma ReadKeyAndValue(s: State, open: string, key: string, value: string, end: string)
    requires Inside(open, '{') && Read(s, key) == State(open, Keyed)
    requires Read(State(open, Value(false)), value) == State(open, Ended)
    requires end == "," || end == ""
    ensures Read(s, key + (":" + "\t") + value + end + "\n") == State(open, if end == "," then KeyLine(0) else CloseLine(0))
  {
    var colon := ":" + "\t";
    ReadConcat(State(open, Keyed), ":", "\t");
    ReadChar(State(open, Keyed), ':');
    ReadChar(State(open, Colon), '\t');
    ReadConcat(s, key, colon);
    ReadConcat(s, key + colon, value);
    ReadConcat(s, key + colon + value, end);
    ReadConcat(s, key + colon + value + end, "\n");
    if end == "," {
      ReadChar(State(open, Ended), ',');
      ReadChar(State(open, MemberComma), '\n');
    } else {
      ReadChar(State(open, Ended), '\n');
    }
  }

  /** Formatted output has the layout, and all that it opens it closes. */
  lemma PrintedLayout(v: Json)
    ensures Read(State("", Value(false)), Print(v, true, 0)) == State("", Ended)
  {
    ReadPrinted(v, "", false);
  }

  // ----- what that says about the text

  lemma {:induction false} ReadRejected(t: string)
    ensures Read(Reject, t) == Reject
  {
    if t != "" {
      ReadRejected(t[1..]);
    }
  }

  /** What is read of the beginning of a text that has the layout. */
  lemma ReadSome(s: State, a: string, b: string)
    requires Read(s, a + b) != Reject
    ensures Read(s, a) != Reject && Read(Read(s, a), b) == Read(s, a + b)
  {
    ReadConcat(s, a, b);
    if Read(s, a) == Reject {
      ReadRejected(b);
    }
  }

  /** How many brackets and braces are open, and whether a string literal is. */
  datatype Count = Count(depth: int, quoted: bool, escaped: bool)

  function CountChar(k: Count, c: char): Count {
    if k.escaped then k.(escaped := false)
    else if k.quoted then (if c == '"' then k.(quoted := false) else k.(escaped := c == '\\'))
    else if c == '"' then k.(quoted := true)
    else if c == '{' || c == '[' then k.(depth := k.depth + 1)
    else if c == '}' || c == ']' then k.(depth := k.depth - 1)
    else k
  }

  function CountFrom(k: Count, t: string): Count
    decreases |t|
  {
    if t == "" then k else CountFrom(CountChar(k, t[0]), t[1..])
  }

  function CountAll(t: string): Count {
    CountFrom(Count(0, false, false), t)
  }

  function CountOf(s: State): Count
    requires s.State?
  {
    Count(|s.open|, s.place.Literal? || s.place.Escaped?, s.place.Escaped?)
  }

  lemma {:induction false} CountIs(s: State, t: string)
    requires s.State? && Read(s, t) != Reject
    ensures CountOf(Read(s, t)) == CountFrom(CountOf(s), t)
    decreases |t|
  {
    if t != "" {
      if Next(s, t[0]) == Reject {
        ReadRejected(t[1..]);
      }
      CountIs(Next(s, t[0]), t[1..]);
    }
  }

  /**
   In formatted output every line but the first starts with as many tabs as there are brackets and braces open
   where it starts, less one if the line starts with a closing brace; it starts with that or with a key.
   */
  lemma LinesIndented(v: Json, a: string, n: nat, c: char, b: string)
    requires Print(v, true, 0) == a + "\n" + Tabs(n) + [c] + b && c != '\t'
    ensures var k := CountAll(a); !k.quoted && (c == '"' || c == '}') && n == k.depth - (if c == '}' then 1 else 0)
  {
    var s := State("", Value(false));
    PrintedLayout(v);
    ReadSome(s, a + "\n" + Tabs(n) + [c], b);
    ReadSome(s, a + "\n" + Tabs(n), [c]);
    ReadSome(s, a + "\n", Tabs(n));
    ReadSome(s, a, "\n");
    CountIs(s, a);
    ReadChar(Read(s, a), '\n');
    ReadTabs(Read(s, a + "\n"), n, Tabs(n));
    ReadChar(Read(s, a + "\n" + Tabs(n)), c);
  }

  /** Places from which no key can come on the same line. */
  predicate KeyBehind(s: State) {
    s.State? && match s.place
      case Literal(key) => !key
      case Escaped(key) => !key
      case Keyed => false
      case FirstLine(_) => false
      case KeyLine(_) => false
      case CloseLine(_) => false
      case _ => true
  }

  lemma {:induction false} SameLine(s: State, t: string)
    requires KeyBehind(s) && '\n' !in t && Read(s, t) != Reject
    ensures KeyBehind(Read(s, t))
    decreases |t|
  {
    if t != "" {
      if Next(s, t[0]) == Reject {
        ReadRejected(t[1..]);
      }
      SameLine(Next(s, t[0]), t[1..]);
    }
  }

  /** Every object member stands on a line of its own: there is a line break between two colons outside strings. */
  lemma MembersOnOwnLines(v: Json, a: string, b: string, c: string)
    requires Print(v, true, 0) == a + ":" + b + ":" + c
    requires !CountAll(a).quoted && !CountAll(a + ":" + b).quoted
    ensures '\n' in b
  {
    var s := State("", Value(false));
    PrintedLayout(v);
    ReadSome(s, a + ":" + b + ":", c);
    ReadSome(s, a + ":" + b, ":");
    ReadSome(s, a + ":", b);
    ReadSome(s, a, ":");
    CountIs(s, a);
    CountIs(s, a + ":" + b);
    ReadChar(Read(s, a), ':');
    ReadChar(Read(s, a + ":" + b), ':');
    if '\n' !in b {
      SameLine(Read(s, a + ":"), b);
    }
  }
}
