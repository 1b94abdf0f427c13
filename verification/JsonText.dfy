/**
 JSON text: what the printer writes for a tree, and the language the parser reads, as functions on the
 text that is left.
 */
module JsonText {
  import opened CString
  import opened Json
  import opened Pointer
  import opened Unicode

  // ----- printing

  /** `print_string_ptr`, one character. */
  function EscapeChar(c: char): string {
    if c == '"' then "\\\""
    else if c == '\\' then "\\\\"
    else if c == '\U{0008}' then "\\b"
    else if c == '\U{000c}' then "\\f"
    else if c == '\n' then "\\n"
    else if c == '\r' then "\\r"
    else if c == '\t' then "\\t"
    else if c < ' ' then "\\u" + Hex4(c as int)
    else [c]
  }

  function Escape(s: string): string {
    if s == "" then "" else EscapeChar(s[0]) + Escape(s[1..])
  }

  function Quote(s: string): string {
    "\"" + Escape(s) + "\""
  }

  /** `%1.15g` on an integer of at most 15 digits. */
  function PrintNumber(n: Num): string {
    if n < 0 then "-" + Decimal(-n) else Decimal(n)
  }

  function Tabs(n: nat): (r: string)
    ensures |r| == n
    ensures forall i :: 0 <= i < n ==> r[i] == '\t'
    ensures AllSpace(r)
  {
    seq(n, i => '\t')
  }

  // the white space of formatted output

  function NewLine(fmt: bool): (r: string)
    ensures AllSpace(r)
  {
    if fmt then "\n" else ""
  }

  function Indent(fmt: bool, depth: nat): (r: string)
    ensures AllSpace(r)
  {
    if fmt then Tabs(depth) else ""
  }

  function AfterComma(fmt: bool): (r: string)
    ensures AllSpace(r)
  {
    if fmt then " " else ""
  }

  function AfterColon(fmt: bool): (r: string)
    ensures AllSpace(r)
  {
    if fmt then "\t" else ""
  }

  /** `print_value`; `depth` is the depth of the print buffer. */
  function Print(v: Json, fmt: bool, depth: nat): string
    decreases v, 1
  {
    match v
    case Null => "null"
    case False => "false"
    case True => "true"
    case Number(n) => PrintNumber(n)
    case Str(s) => Quote(s)
    case Array(items) => "[" + PrintItems(items, fmt, depth + 1) + "]"
    case Object(ms) => "{" + NewLine(fmt) + PrintMembers(ms, fmt, depth + 1) + Indent(fmt, depth) + "}"
  }

  function PrintItems(items: seq<Json>, fmt: bool, depth: nat): string
    decreases items, 0
  {
    if items == [] then ""
    else if |items| == 1 then Print(items[0], fmt, depth)
    else Print(items[0], fmt, depth) + ("," + AfterComma(fmt)) + PrintItems(items[1..], fmt, depth)
  }

  function PrintMembers(ms: seq<Member>, fmt: bool, depth: nat): string
    decreases ms, 0
  {
    if ms == [] then ""
    else
      Indent(fmt, depth) + PrintMember(ms[0], fmt, depth, |ms| > 1) + PrintMembers(ms[1..], fmt, depth)
  }

  /** One member without its indentation. */
  function PrintMember(m: Member, fmt: bool, depth: nat, more: bool): (r: string)
    ensures r != "" && r[0] == '"'
    decreases m, 2
  {
    Quote(m.key) + (":" + AfterColon(fmt)) + Print(m.value, fmt, depth) + (if more then "," else "") + NewLine(fmt)
  }

  // ----- parsing

  const NESTING_LIMIT: nat := 1000

  datatype Parsed<+T> = Fail | Ok(value: T, rest: string)

  predicate Space(c: char) {
    c <= ' '
  }

  predicate AllSpace(w: string) {
    forall i :: 0 <= i < |w| ==> Space(w[i])
  }

  function DropSpace(r: string): (t: string)
    ensures |t| <= |r|
  {
    if r != "" && Space(r[0]) then DropSpace(r[1..]) else r
  }

  /** `buffer_skip_whitespace`: at the end of the buffer it steps back to the last character. */
  function Skip(r: string): (t: string)
    ensures |t| <= |r|
    ensures r != "" ==> t != ""
  {
    var t := DropSpace(r);
    if t == "" && r != "" then r[|r| - 1..] else t
  }

  /** The scan pass of `parse_string`: how far away the closing quote is. */
  function ScanEnd(r: string): (n: Option<nat>)
    ensures n.Some? ==> n.value < |r| && r[n.value] == '"'
  {
    if r == "" then None
    else if r[0] == '"' then Some(0)
    else if r[0] == '\\' then
      if |r| == 1 then None
      else
        var n := ScanEnd(r[2..]);
        if n.None? then None else Some(2 + n.value)
    else
      var n := ScanEnd(r[1..]);
      if n.None? then None else Some(1 + n.value)
  }

  function SimpleEscape(c: char): Option<char> {
    if c == 'b' then Some('\U{0008}')
    else if c == 'f' then Some('\U{000c}')
    else if c == 'n' then Some('\n')
    else if c == 'r' then Some('\r')
    else if c == 't' then Some('\t')
    else if c == '"' || c == '\\' || c == '/' then Some(c)
    else None
  }

  /**
   The unescape pass over the text before the closing quote. A backslash in the last place, possible
   after a malformed `\u` literal, takes the closing quote as the escaped character.
   */
  function Unescape(b: string): Option<string>
    decreases |b|
  {
    if b == "" then Some("")
    else if b[0] != '\\' then
      var t := Unescape(b[1..]);
      if t.None? then None else Some([b[0]] + t.value)
    else
      var c := if |b| > 1 then b[1] else '"';
      if c == 'u' then
        var u := Utf16Literal(b);
        if u.None? then None
        else
          var t := Unescape(b[u.value.1..]);
          if t.None? then None else Some(u.value.0 + t.value)
      else
        var x := SimpleEscape(c);
        if x.None? then None
        else
          var t := Unescape(if |b| > 1 then b[2..] else "");
          if t.None? then None else Some([x.value] + t.value)
  }

  /** What is left of a buffer once it is read as a C string. */
  function CStr(s: string): string {
    if s == "" || s[0] == NUL then "" else [s[0]] + CStr(s[1..])
  }

  function ParseString(r: string): (p: Parsed<string>)
    ensures p.Ok? ==> |p.rest| < |r|
  {
    if r == "" || r[0] != '"' then Fail
    else
      var n := ScanEnd(r[1..]);
      if n.None? then Fail
      else
        var t := Unescape(r[1..1 + n.value]);
        if t.None? then Fail else Ok(CStr(t.value), r[2 + n.value..])
  }

  predicate IsDigit(c: char) {
    '0' <= c <= '9'
  }

  /** The longest text `parse_number` copies for `strtod`. */
  const NUMBER_BUFFER: nat := 63

  predicate FractionOrExponent(c: char) {
    c == '.' || c == 'e' || c == 'E'
  }

  /** The value of the digits at the front of `t`, after `acc`, and what follows them. */
  function ReadDigits(t: string, acc: nat): (r: (nat, string))
    ensures |r.1| <= |t|
    decreases |t|
  {
    if t != "" && IsDigit(t[0]) then ReadDigits(t[1..], 10 * acc + (t[0] as int - '0' as int)) else (acc, t)
  }

  /** `strtod` on integer tokens: the value and the characters used. Fractions and exponents are not modelled. */
  function Strtod(t: string): (r: Option<(int, nat)>)
    ensures r.Some? ==> 0 < r.value.1 <= |t|
  {
    var negative := t != "" && t[0] == '-';
    var body := if negative then t[1..] else t;
    var (value, rest) := ReadDigits(body, 0);
    if |rest| == |body| || FractionOrExponent(At(rest, 0)) then None
    else Some((if negative then -(value as int) else value as int, |t| - |rest|))
  }

  /** `parse_number`, for numbers in the modelled range. */
  function ParseNumber(r: string): (p: Parsed<Num>)
    ensures p.Ok? ==> |p.rest| < |r|
  {
    var s := Strtod(if |r| <= NUMBER_BUFFER then r else r[..NUMBER_BUFFER]);
    if s.None? || !(-NUM_LIMIT < s.value.0 < NUM_LIMIT) then Fail
    else
      var number: Num := s.value.0;
      Ok(number, r[s.value.1..])
  }

  /** `parse_value`. */
  function ParseValue(r: string, depth: nat): (p: Parsed<Json>)
    ensures p.Ok? ==> |p.rest| < |r|
    decreases |r|, 1
  {
    if "null" <= r then Ok(Null, r[4..])
    else if "false" <= r then Ok(False, r[5..])
    else if "true" <= r then Ok(True, r[4..])
    else if r == "" then Fail
    else if r[0] == '"' then
      var p := ParseString(r);
      if p.Fail? then Fail else Ok(Str(p.value), p.rest)
    else if r[0] == '-' || IsDigit(r[0]) then
      var p := ParseNumber(r);
      if p.Fail? then Fail else Ok(Number(p.value), p.rest)
    else if r[0] == '[' then ParseArray(r, depth)
    else if r[0] == '{' then ParseObject(r, depth)
    else Fail
  }

  function ParseArray(r: string, depth: nat): (p: Parsed<Json>)
    requires r != "" && r[0] == '['
    ensures p.Ok? ==> |p.rest| < |r|
    decreases |r|, 0
  {
    var s := Skip(r[1..]);
    if depth >= NESTING_LIMIT || s == "" then Fail
    else if s[0] == ']' then Ok(Array([]), s[1..])
    else
      var p := ParseItems(s, depth + 1);
      if p.Fail? then Fail else Ok(Array(p.value), p.rest)
  }

  /** The element loop, from the character after the bracket or comma. */
  function ParseItems(r: string, depth: nat): (p: Parsed<seq<Json>>)
    requires depth <= NESTING_LIMIT
    ensures p.Ok? ==> |p.rest| < |r|
    decreases |r|, 2
  {
    var v := ParseValue(Skip(r), depth);
    if v.Fail? then Fail
    else
      var s := Skip(v.rest);
      if s == "" then Fail
      else if s[0] == ',' then
        var more := ParseItems(s[1..], depth);
        if more.Fail? then Fail else Ok([v.value] + more.value, more.rest)
      else if s[0] == ']' then Ok([v.value], s[1..])
      else Fail
  }

  function ParseObject(r: string, depth: nat): (p: Parsed<Json>)
    requires r != "" && r[0] == '{'
    ensures p.Ok? ==> |p.rest| < |r|
    decreases |r|, 0
  {
    var s := Skip(r[1..]);
    if depth >= NESTING_LIMIT || s == "" then Fail
    else if s[0] == '}' then Ok(Object([]), s[1..])
    else
      var p := ParseMembers(s, depth + 1);
      if p.Fail? then Fail else Ok(Object(p.value), p.rest)
  }

  /** A key, a colon and a value. */
  function ParseMember(r: string, depth: nat): (p: Parsed<Member>)
    requires depth <= NESTING_LIMIT
    ensures p.Ok? ==> |p.rest| < |r|
    decreases |r|, 2
  {
    var k := ParseString(Skip(r));
    if k.Fail? then Fail
    else
      var c := Skip(k.rest);
      if c == "" || c[0] != ':' then Fail
      else
        var v := ParseValue(Skip(c[1..]), depth);
        if v.Fail? then Fail else Ok(Member(k.value, v.value), v.rest)
  }

  /** The member loop. */
  function ParseMembers(r: string, depth: nat): (p: Parsed<seq<Member>>)
    requires depth <= NESTING_LIMIT
    ensures p.Ok? ==> |p.rest| < |r|
    decreases |r|, 3
  {
    var m := ParseMember(r, depth);
    if m.Fail? then Fail
    else
      var s := Skip(m.rest);
      if s == "" then Fail
      else if s[0] == ',' then
        var more := ParseMembers(s[1..], depth);
        if more.Fail? then Fail else Ok([m.value] + more.value, more.rest)
      else if s[0] == '}' then Ok([m.value], s[1..])
      else Fail
  }

  /** `ParseArray` after the bracket and the white space. */
  function ArrayTail(s: string, depth: nat): (p: Parsed<Json>)
    requires depth <= NESTING_LIMIT && s != ""
    ensures p.Ok? ==> |p.rest| < |s|
  {
    if s[0] == ']' then Ok(Array([]), s[1..])
    else
      var p := ParseItems(s, depth);
      if p.Fail? then Fail else Ok(Array(p.value), p.rest)
  }

  /** `ParseObject` after the brace and the white space. */
  function ObjectTail(s: string, depth: nat): (p: Parsed<Json>)
    requires depth <= NESTING_LIMIT && s != ""
    ensures p.Ok? ==> |p.rest| < |s|
  {
    if s[0] == '}' then Ok(Object([]), s[1..])
    else
      var p := ParseMembers(s, depth);
      if p.Fail? then Fail else Ok(Object(p.value), p.rest)
  }

  lemma ObjectIs(rest: string, depth: nat, s: string)
    requires rest != "" && rest[0] == '{' && depth < NESTING_LIMIT && s == Skip(rest[1..]) != ""
    ensures ParseObject(rest, depth) == ObjectTail(s, depth + 1)
  {
  }

  lemma ArrayIs(rest: string, depth: nat, s: string)
    requires rest != "" && rest[0] == '[' && depth < NESTING_LIMIT && s == Skip(rest[1..]) != ""
    ensures ParseArray(rest, depth) == ArrayTail(s, depth + 1)
  {
  }

  // ----- the nesting limit bounds the tree

  /** A tree read at some depth is no higher than what the limit leaves. */
  lemma {:induction false} ParsedHeight(r: string, depth: nat)
    ensures ParseValue(r, depth).Ok? ==>
              var h := Height(ParseValue(r, depth).value); h == 0 || depth + h <= NESTING_LIMIT
    decreases |r|, 1
  {
    if r != "" && r[0] == '[' {
      ParsedArrayHeight(r, depth);
    } else if r != "" && r[0] == '{' {
      ParsedObjectHeight(r, depth);
    }
  }

  lemma {:induction false} ParsedArrayHeight(r: string, depth: nat)
    requires r != "" && r[0] == '['
    ensures ParseArray(r, depth).Ok? ==> depth + Height(ParseArray(r, depth).value) <= NESTING_LIMIT
    decreases |r|, 0
  {
    var s := Skip(r[1..]);
    if depth < NESTING_LIMIT && s != "" {
      ArrayIs(r, depth, s);
      ArrayTailHeight(s, depth + 1);
    }
  }

  lemma {:induction false} ArrayTailHeight(s: string, depth: nat)
    requires 0 < depth <= NESTING_LIMIT && s != ""
    ensures ArrayTail(s, depth).Ok? ==> depth + Height(ArrayTail(s, depth).value) <= NESTING_LIMIT + 1
    decreases |s|, 4
  {
    if s[0] != ']' {
      ParsedItemsHeight(s, depth);
    }
  }

  lemma {:induction false} ParsedObjectHeight(r: string, depth: nat)
    requires r != "" && r[0] == '{'
    ensures ParseObject(r, depth).Ok? ==> depth + Height(ParseObject(r, depth).value) <= NESTING_LIMIT
    decreases |r|, 0
  {
    var s := Skip(r[1..]);
    if depth < NESTING_LIMIT && s != "" {
      ObjectIs(r, depth, s);
      ObjectTailHeight(s, depth + 1);
    }
  }

  lemma {:induction false} ObjectTailHeight(s: string, depth: nat)
    requires 0 < depth <= NESTING_LIMIT && s != ""
    ensures ObjectTail(s, depth).Ok? ==> depth + Height(ObjectTail(s, depth).value) <= NESTING_LIMIT + 1
    decreases |s|, 4
  {
    if s[0] != '}' {
      ParsedMembersHeight(s, depth);
    }
  }

  lemma {:induction false} ParsedItemsHeight(r: string, depth: nat)
    requires depth <= NESTING_LIMIT
    ensures ParseItems(r, depth).Ok? ==> depth + ItemsHeight(ParseItems(r, depth).value) <= NESTING_LIMIT
    decreases |r|, 2
  {
    ParsedHeight(Skip(r), depth);
    var v := ParseValue(Skip(r), depth);
    if v.Ok? && Skip(v.rest) != "" && Skip(v.rest)[0] == ',' {
      ParsedItemsHeight(Skip(v.rest)[1..], depth);
      var more := ParseItems(Skip(v.rest)[1..], depth);
      if more.Ok? {
        ConsItemsHeight(v.value, more.value, NESTING_LIMIT - depth);
      }
    }
  }

  lemma {:induction false} ParsedMembersHeight(r: string, depth: nat)
    requires depth <= NESTING_LIMIT
    ensures ParseMembers(r, depth).Ok? ==> depth + MembersHeight(ParseMembers(r, depth).value) <= NESTING_LIMIT
    decreases |r|, 3
  {
    ParsedMemberHeight(r, depth);
    var m := ParseMember(r, depth);
    if m.Ok? && Skip(m.rest) != "" && Skip(m.rest)[0] == ',' {
      ParsedMembersHeight(Skip(m.rest)[1..], depth);
      var more := ParseMembers(Skip(m.rest)[1..], depth);
      if more.Ok? {
        ConsMembersHeight(m.value, more.value, NESTING_LIMIT - depth);
      }
    }
  }

  lemma {:induction false} ParsedMemberHeight(r: string, depth: nat)
    requires depth <= NESTING_LIMIT
    ensures ParseMember(r, depth).Ok? ==> depth + Height(ParseMember(r, depth).value.value) <= NESTING_LIMIT
    decreases |r|, 2
  {
    var k := ParseString(Skip(r));
    if k.Ok? && Skip(k.rest) != "" {
      ParsedHeight(Skip(Skip(k.rest)[1..]), depth);
    }
  }

  const BOM: string := "\U{00ef}\U{00bb}\U{00bf}"

  function SkipBom(r: string): string {
    if |r| > 4 && BOM <= r then r[3..] else r
  }

  /** `cJSON_ParseWithLengthOpts` on a whole buffer. */
  function ParseContent(content: string, requireEnd: bool): Parsed<Json> {
    var p := ParseValue(Skip(SkipBom(content)), 0);
    if p.Fail? then Fail
    else if !requireEnd then p
    else
      var s := Skip(p.rest);
      if s == "" || s[0] != NUL then Fail else Ok(p.value, s)
  }

  /** `cJSON_ParseWithOpts` on a C string: the buffer is the text with its terminator. */
  function Parse(text: string, requireEnd: bool): Parsed<Json> {
    ParseContent(text + [NUL], requireEnd)
  }
}
