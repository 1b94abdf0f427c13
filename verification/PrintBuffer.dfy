/**
 The print buffer: `ensure`, `update_offset` and the printing routines that write through them. Printing
 refines the text function `Print`: whatever the growth of the buffer, success means exactly that text,
 and success is decided by its length alone.
 */
module PrintBuffer {
  import opened CString
  import opened Json
  import opened Pointer
  import opened Unicode
  import opened JsonText
  import opened ParsePrint
  import opened Allocation
  import opened ParseBuffer

  const INT_MAX: nat := 0x7fff_ffff

  // ----- writing into an array

  /** Writes `t` at `at` and nothing else. */
  method PutText(b: array<char>, at: nat, t: string)
    requires at + |t| <= b.Length
    modifies b
    ensures b[..at + |t|] == old(b[..at]) + t
    ensures b[at + |t|..] == old(b[at + |t|..])
  {
    forall i | 0 <= i < |t| {
      b[at + i] := t[i];
    }
  }

  /** `strcpy`. */
  method CopyString(b: array<char>, at: nat, t: string)
    requires at + |t| < b.Length
    modifies b
    ensures b[..at + |t|] == old(b[..at]) + t
    ensures b[at + |t|] == NUL
  {
    PutText(b, at, t);
    b[at + |t|] := NUL;
  }

  /** The first pass of `print_string_ptr`: how many characters escaping adds. */
  method CountEscapes(s: string) returns (n: nat)
    ensures |s| + n == |Escape(s)|
    ensures n == 0 ==> Escape(s) == s
  {
    n := 0;
    var i := 0;
    assert s[0..] == s;
    while i < |s|
      invariant 0 <= i <= |s|
      invariant i + n + |Escape(s[i..])| == |Escape(s)|
      invariant n == 0 ==> s[..i] + Escape(s[i..]) == Escape(s)
    {
      assert s[i..][1..] == s[i + 1..];
      var c := s[i];
      if c == '"' || c == '\\' || c == '\U{0008}' || c == '\U{000c}' || c == '\n' || c == '\r' || c == '\t' {
        n := n + 1;
      } else if c < ' ' {
        n := n + 5;
      } else {
        CopyStep(s, i);
      }
      i := i + 1;
    }
    assert s[..i] + "" == s;
  }

  lemma CopyStep(s: string, i: nat)
    requires i < |s| && EscapeChar(s[i]) == [s[i]]
    ensures s[..i] + Escape(s[i..]) == s[..i + 1] + Escape(s[i + 1..])
  {
    assert s[i..][1..] == s[i + 1..];
    assert s[..i + 1] == s[..i] + [s[i]];
  }

  /** One character of the second pass. `%04x` also leaves a terminator behind it. */
  method PutEscaped(b: array<char>, at: nat, c: char) returns (next: nat)
    requires at + |EscapeChar(c)| < b.Length
    modifies b
    ensures next == at + |EscapeChar(c)|
    ensures b[..next] == old(b[..at]) + EscapeChar(c)
  {
    if c > '\U{001f}' && c != '"' && c != '\\' {
      PutText(b, at, [c]);
    } else if Control(c) {
      CopyString(b, at, "\\u" + Hex4(c as int));
    } else {
      PutText(b, at, EscapeChar(c));
    }
    next := at + |EscapeChar(c)|;
  }

  /** The second pass of `print_string_ptr`, between the quotes. */
  method PutEscapes(b: array<char>, at: nat, s: string) returns (next: nat)
    requires at + |Escape(s)| < b.Length
    modifies b
    ensures next == at + |Escape(s)|
    ensures b[..next] == old(b[..at]) + Escape(s)
  {
    ghost var before := b[..at];
    next := at;
    var i := 0;
    assert s[0..] == s;
    while i < |s|
      invariant 0 <= i <= |s|
      invariant next + |Escape(s[i..])| == at + |Escape(s)|
      invariant b[..next] + Escape(s[i..]) == before + Escape(s)
    {
      ghost var done := b[..next];
      EscapeStep(s, i, done);
      next := PutEscaped(b, next, s[i]);
      i := i + 1;
    }
    assert b[..next] + "" == b[..next];
  }

  method PutQuoted(b: array<char>, at: nat, s: string)
    requires at + |Escape(s)| + 2 < b.Length
    modifies b
    ensures b[..at + |Escape(s)| + 2] == old(b[..at]) + "\"" + Escape(s) + "\""
    ensures b[at + |Escape(s)| + 2] == NUL
  {
    PutText(b, at, "\"");
    var next := PutEscapes(b, at + 1, s);
    CopyString(b, next, "\"");
  }

  lemma EscapeStep(s: string, i: nat, done: string)
    requires i < |s|
    ensures |Escape(s[i..])| == |EscapeChar(s[i])| + |Escape(s[i + 1..])|
    ensures done + Escape(s[i..]) == done + EscapeChar(s[i]) + Escape(s[i + 1..])
  {
    assert s[i..][1..] == s[i + 1..];
  }

  // ----- printed text holds no terminator

  lemma {:induction false} EscapeNulFree(s: string)
    requires NulFree(s)
    ensures NulFree(Escape(s))
  {
    if s != "" {
      EscapeNulFree(s[1..]);
      HexNulFree(s[0]);
    }
  }

  lemma HexNulFree(c: char)
    requires c != NUL
    ensures NulFree(EscapeChar(c))
  {
  }

  lemma QuoteNulFree(s: string)
    requires NulFree(s)
    ensures NulFree(Quote(s))
  {
    EscapeNulFree(s);
  }

  lemma NumberNulFree(n: Num)
    ensures NulFree(PrintNumber(n))
  {
    DecimalDigits(if n < 0 then -n else n);
  }

  lemma ConcatNulFree(a: string, b: string)
    requires NulFree(a) && NulFree(b)
    ensures NulFree(a + b)
  {
  }

  lemma {:induction false} PrintNulFree(v: Json, fmt: bool, depth: nat)
    requires NulFreeTree(v)
    ensures NulFree(Print(v, fmt, depth))
    decreases v, 1
  {
    match v
    case Number(n) => NumberNulFree(n);
    case Str(s) => QuoteNulFree(s);
    case Array(items) =>
      assert ItemsNulFree(items);
      ItemsTextNulFree(items, fmt, depth + 1);
    case Object(ms) =>
      assert MembersNulFree(ms);
      MembersTextNulFree(ms, fmt, depth + 1);
    case _ =>
  }

  lemma {:induction false} ItemsTextNulFree(items: seq<Json>, fmt: bool, depth: nat)
    requires ItemsNulFree(items)
    ensures NulFree(PrintItems(items, fmt, depth))
    decreases items, 0
  {
    if items != [] {
      PrintNulFree(items[0], fmt, depth);
      ItemsTextNulFree(items[1..], fmt, depth);
    }
  }

  lemma {:induction false} MembersTextNulFree(ms: seq<Member>, fmt: bool, depth: nat)
    requires MembersNulFree(ms)
    ensures NulFree(PrintMembers(ms, fmt, depth))
    decreases ms, 0
  {
    if ms != [] {
      assert ms[0] in ms;
      MemberTextNulFree(ms[0], fmt, depth, |ms| > 1);
      MembersTextNulFree(ms[1..], fmt, depth);
    }
  }

  lemma {:induction false} MemberTextNulFree(m: Member, fmt: bool, depth: nat, more: bool)
    requires NulFree(m.key) && NulFreeTree(m.value)
    ensures NulFree(PrintMember(m, fmt, depth, more))
    decreases m, 2
  {
    QuoteNulFree(m.key);
    PrintNulFree(m.value, fmt, depth);
    ConcatNulFree(Quote(m.key), ":" + AfterColon(fmt));
    ConcatNulFree(Quote(m.key) + (":" + AfterColon(fmt)), Print(m.value, fmt, depth));
  }

  // ----- the buffer

  class Printer {
    var buffer: array<char>
    var offset: nat
    var depth: nat
    /** A larger buffer was asked for and not granted. */
    var refused: bool
    const noalloc: bool
    const format: bool

    constructor (buffer: array<char>, noalloc: bool, format: bool)
      ensures this.buffer == buffer && offset == 0 && depth == 0 && !refused
      ensures this.noalloc == noalloc && this.format == format
    {
      this.buffer, this.offset, this.depth, this.refused := buffer, 0, 0, false;
      this.noalloc, this.format := noalloc, format;
    }

    /** How long the buffer can become. */
    ghost function Capacity(): nat
      reads this
    {
      if noalloc then buffer.Length else INT_MAX
    }

    /** The buffer holds `text` up to the offset. */
    ghost predicate At(text: string)
      reads this, buffer
    {
      && !refused && buffer.Length <= INT_MAX
      && (offset < buffer.Length || (offset == 0 && buffer.Length == 0))
      && offset == |text| && buffer[..offset] == text
    }

    /** The buffer holds `text` and its terminator, and the offset is somewhere in the last part of it. */
    ghost predicate Ends(text: string, from: nat)
      reads this, buffer
    {
      && !refused && buffer.Length <= INT_MAX
      && from <= offset <= |text| < buffer.Length
      && buffer[..|text|] == text && buffer[|text|] == NUL
      && NulFree(text[from..])
    }

    /** What every printing routine leaves alone, and that a fixed buffer is not replaced. */
    twostate predicate Kept()
      reads this
    {
      && (noalloc ==> buffer == old(buffer) && refused == old(refused))
      && (buffer == old(buffer) || fresh(buffer))
    }

    /**
     `ensure`: room for `needed` more characters and one to spare, if the capacity and the allocator allow it.
     After a refusal the buffer is given up.
     */
    method Ensure(needed: nat, ghost text: string) returns (ok: bool)
      requires At(text)
      modifies this
      ensures (ok ==> At(text)) && depth == old(depth) && Kept() && Capacity() == old(Capacity())
      ensures if ok then |text| + needed + 1 <= Capacity() else refused || |text| + needed + 1 > Capacity()
      ensures ok ==> |text| + needed + 1 <= buffer.Length
      ensures refused ==> buffer.Length == 0
    {
      if buffer.Length > 0 && offset >= buffer.Length {
        return false;
      }
      if needed > INT_MAX {
        return false;
      }
      var total := needed + offset + 1;
      if total <= buffer.Length {
        return true;
      }
      if noalloc {
        return false;
      }
      var size := total * 2;
      if total > INT_MAX / 2 {
        if total > INT_MAX {
          return false;
        }
        size := INT_MAX;
      }
      if * {
        refused, buffer := true, new char[0];
        return false;
      }
      var grown := new char[size];
      forall i | 0 <= i < buffer.Length {
        grown[i] := buffer[i];
      }
      assert grown[..offset] == buffer[..offset];
      buffer := grown;
      ok := true;
    }

    /** `update_offset`: `strlen` from the offset on. */
    method UpdateOffset(ghost text: string, ghost from: nat)
      requires Ends(text, from)
      modifies this`offset
      ensures At(text)
    {
      forall i | from <= i < |text| ensures buffer[i] != NUL {
        assert buffer[i] == buffer[..|text|][i] == text[from..][i - from];
      }
      while buffer[offset] != NUL
        invariant from <= offset <= |text|
        invariant forall i :: from <= i < |text| ==> buffer[i] != NUL
        decreases |text| - offset
      {
        offset := offset + 1;
      }
    }

    /** Writes `t` without a terminator, once there is room for `needed` characters. */
    method Append(t: string, needed: nat, ghost text: string) returns (ok: bool)
      requires At(text) && |t| <= needed
      modifies this, buffer
      ensures depth == old(depth) && Kept() && Capacity() == old(Capacity())
      ensures if ok then |text| + needed + 1 <= Capacity() else refused || |text| + needed + 1 > Capacity()
      ensures ok ==> At(text + t)
    {
      ok := Ensure(needed, text);
      if ok {
        PutText(buffer, offset, t);
        offset := offset + |t|;
      }
    }

    /** `strcpy` of `t` at the offset, once there is room for it. */
    method Finish(t: string, ghost text: string) returns (ok: bool)
      requires At(text) && NulFree(t)
      modifies this, buffer
      ensures depth == old(depth) && Kept() && Capacity() == old(Capacity())
      ensures if ok then |text| + |t| + 2 <= Capacity() else refused || |text| + |t| + 2 > Capacity()
      ensures ok ==> Ends(text + t, |text|) && offset == |text|
    {
      ok := Ensure(|t| + 1, text);
      if ok {
        CopyString(buffer, offset, t);
        assert (text + t)[|text|..] == t;
      }
    }

    /** `print_string_ptr`. */
    method PrintString(s: string, ghost text: string) returns (ok: bool)
      requires At(text) && NulFree(s)
      modifies this, buffer
      ensures depth == old(depth) && Kept() && Capacity() == old(Capacity())
      ensures if ok then |text| + |Quote(s)| + 2 <= Capacity() else refused || |text| + |Quote(s)| + 2 > Capacity()
      ensures ok ==> Ends(text + Quote(s), |text|)
    {
      QuoteNulFree(s);
      var escapes := CountEscapes(s);
      if escapes == 0 {
        ok := Finish("\"" + s + "\"", text);
      } else {
        ok := Ensure(|s| + escapes + 3, text);
        if ok {
          PutQuoted(buffer, offset, s);
          QuoteAssociates(text, s);
        }
      }
    }

    /** `print_value`: success depends on the length of the text alone, and it means that text was written. */
    method PrintValue(v: Json, ghost text: string) returns (ok: bool)
      requires At(text) && NulFreeTree(v)
      modifies this, buffer
      ensures Kept() && Capacity() == old(Capacity())
      ensures if ok then |text| + |Print(v, format, old(depth))| + 2 <= Capacity() else refused || |text| + |Print(v, format, old(depth))| + 2 > Capacity()
      ensures ok ==> depth == old(depth) && Ends(text + Print(v, format, depth), |text|)
      decreases v, 1
    {
      match v
      case Null => ok := Finish("null", text);
      case False => ok := Finish("false", text);
      case True => ok := Finish("true", text);
      case Number(n) =>
        NumberNulFree(n);
        ok := Finish(PrintNumber(n), text);
        if ok { offset := offset + |PrintNumber(n)|; }
      case Str(s) => ok := PrintString(s, text);
      case Array(items) =>
        assert ItemsNulFree(items);
        ok := PrintArray(items, text);
      case Object(ms) =>
        assert MembersNulFree(ms);
        ok := PrintObject(ms, text);
    }

    /** `print_array`. */
    method PrintArray(items: seq<Json>, ghost text: string) returns (ok: bool)
      requires At(text) && ItemsNulFree(items)
      modifies this, buffer
      ensures Kept() && Capacity() == old(Capacity())
      ensures if ok then |text| + |Print(Array(items), format, old(depth))| + 2 <= Capacity() else refused || |text| + |Print(Array(items), format, old(depth))| + 2 > Capacity()
      ensures ok ==> depth == old(depth) && Ends(text + Print(Array(items), format, depth), |text|)
      decreases items, 1
    {
      ghost var all := PrintItems(items, format, depth + 1);
      ItemsTextNulFree(items, format, depth + 1);
      ok := Append("[", 1, text);
      if !ok { return; }
      depth := depth + 1;
      ok := PrintElements(items, text + "[");
      if !ok { return; }
      ok := Close("]", "[", all, text);
      depth := depth - 1;
    }

    /** The loop in `print_array`. */
    method PrintElements(items: seq<Json>, ghost text: string) returns (ok: bool)
      requires At(text) && ItemsNulFree(items)
      modifies this, buffer
      ensures Kept() && Capacity() == old(Capacity())
      ensures ok ==> depth == old(depth) && At(text + PrintItems(items, format, depth))
      ensures !ok ==> refused || |text| + |PrintItems(items, format, old(depth))| + 2 > Capacity()
      decreases items, 0
    {
      ghost var all := PrintItems(items, format, depth);
      ghost var cur := text;
      var i := 0;
      ok := true;
      assert items[0..] == items;
      while i < |items|
        invariant 0 <= i <= |items| && depth == old(depth) && ok
        invariant Kept() && Capacity() == old(Capacity())
        invariant At(cur) && cur + PrintItems(items[i..], format, depth) == text + all
      {
        ghost var more, rest := i + 1 < |items|, PrintItems(items[i + 1..], format, depth);
        ghost var t := ItemText(items[i], more, format, depth);
        ItemsStep(items, i, format, depth);
        Reassociate(cur, t, rest);
        ok := PrintItem(items[i], i + 1 < |items|, cur);
        if !ok { return; }
        cur := cur + t;
        i := i + 1;
      }
      assert cur + "" == cur;
    }

    /** The body of the loop in `print_array`. */
    method PrintItem(v: Json, more: bool, ghost text: string) returns (ok: bool)
      requires At(text) && NulFreeTree(v)
      modifies this, buffer
      ensures Kept() && Capacity() == old(Capacity())
      ensures ok ==> depth == old(depth) && At(text + ItemText(v, more, format, depth))
      ensures !ok ==> refused || |text| + |ItemText(v, more, format, old(depth))| + 2 > Capacity()
      decreases v, 2
    {
      ok := PrintValue(v, text);
      if !ok { return; }
      ghost var cur := text + Print(v, format, depth);
      UpdateOffset(cur, |text|);
      if more {
        var comma := "," + AfterComma(format);
        ok := Append(comma, |comma| + 1, cur);
        assert cur + comma == text + (Print(v, format, depth) + comma);
      }
    }

    /** `print_object`. */
    method PrintObject(ms: seq<Member>, ghost text: string) returns (ok: bool)
      requires At(text) && MembersNulFree(ms)
      modifies this, buffer
      ensures Kept() && Capacity() == old(Capacity())
      ensures if ok then |text| + |Print(Object(ms), format, old(depth))| + 2 <= Capacity() else refused || |text| + |Print(Object(ms), format, old(depth))| + 2 > Capacity()
      ensures ok ==> depth == old(depth) && Ends(text + Print(Object(ms), format, depth), |text|)
      decreases ms, 2
    {
      ObjectPieces(ms, format, depth);
      ok := PrintBraces(ms, "{" + NewLine(format), Indent(format, depth) + "}", text);
    }

    method PrintBraces(ms: seq<Member>, opening: string, closing: string, ghost text: string) returns (ok: bool)
      requires At(text) && MembersNulFree(ms)
      requires NulFree(opening) && NulFree(closing) && |closing| > 0
      modifies this, buffer
      ensures Kept() && Capacity() == old(Capacity())
      ensures ok ==> depth == old(depth)
      ensures var printed := opening + PrintMembers(ms, format, old(depth) + 1) + closing;
              && (if ok then |text| + |printed| + 2 <= Capacity() else refused || |text| + |printed| + 2 > Capacity())
              && (ok ==> Ends(text + printed, |text|))
      decreases ms, 1
    {
      ghost var all := PrintMembers(ms, format, depth + 1);
      MembersTextNulFree(ms, format, depth + 1);
      ok := Append(opening, |opening| + 1, text);
      if !ok { return; }
      depth := depth + 1;
      ok := PrintPairs(ms, text + opening);
      if !ok { return; }
      ok := Close(closing, opening, all, text);
      depth := depth - 1;
    }

    /** The loop in `print_object`. */
    method PrintPairs(ms: seq<Member>, ghost text: string) returns (ok: bool)
      requires At(text) && MembersNulFree(ms)
      modifies this, buffer
      ensures Kept() && Capacity() == old(Capacity())
      ensures ok ==> depth == old(depth) && At(text + PrintMembers(ms, format, depth))
      ensures !ok ==> refused || |text| + |PrintMembers(ms, format, old(depth))| + 2 > Capacity()
      decreases ms, 0
    {
      ghost var all := PrintMembers(ms, format, depth);
      ghost var cur := text;
      var i := 0;
      ok := true;
      assert ms[0..] == ms;
      while i < |ms|
        invariant 0 <= i <= |ms| && depth == old(depth) && ok
        invariant Kept() && Capacity() == old(Capacity())
        invariant At(cur) && cur + PrintMembers(ms[i..], format, depth) == text + all
      {
        ghost var more, rest := i + 1 < |ms|, PrintMembers(ms[i + 1..], format, depth);
        ghost var t := OneText(ms[i], more, format, depth);
        MembersStep(ms, i, format, depth);
        Reassociate(cur, t, rest);
        ok := PrintOne(ms[i], i + 1 < |ms|, cur);
        if !ok { return; }
        cur := cur + t;
        i := i + 1;
      }
      assert cur + "" == cur;
    }

    /** The body of the loop in `print_object`. */
    method PrintOne(m: Member, more: bool, ghost text: string) returns (ok: bool)
      requires At(text) && NulFree(m.key) && NulFreeTree(m.value)
      modifies this, buffer
      ensures Kept() && Capacity() == old(Capacity())
      ensures ok ==> depth == old(depth) && At(text + OneText(m, more, format, depth))
      ensures !ok ==> refused || |text| + |OneText(m, more, format, old(depth))| + 2 > Capacity()
      decreases m, 2
    {
      var ending := (if more then "," else "") + NewLine(format);
      var colon := ":" + AfterColon(format);
      ghost var value := Print(m.value, format, depth);
      ghost var front := Indent(format, depth) + Quote(m.key) + colon;
      OnePieces(text, m, more, format, depth);
      ok := PrintKey(m.key, text);
      if !ok { return; }
      ok := PrintValue(m.value, text + front);
      if !ok { return; }
      UpdateOffset(text + front + value, |text + front|);
      ok := Append(ending, |ending| + 1, text + front + value);
    }

    /** Indentation, key and colon. */
    method PrintKey(key: string, ghost text: string) returns (ok: bool)
      requires At(text) && NulFree(key)
      modifies this, buffer
      ensures depth == old(depth) && Kept() && Capacity() == old(Capacity())
      ensures ok ==> At(text + (Indent(format, depth) + Quote(key) + (":" + AfterColon(format))))
      ensures !ok ==> refused || |text| + |Indent(format, depth) + Quote(key) + (":" + AfterColon(format))| + 1 > Capacity()
    {
      var colon := ":" + AfterColon(format);
      Associates(text, Indent(format, depth), Quote(key), colon);
      ghost var indented := text + Indent(format, depth);
      ok := true;
      if format {
        ok := Append(Tabs(depth), depth, text);
        if !ok { return; }
      } else {
        assert indented == text;
      }
      ok := PrintString(key, indented);
      if !ok { return; }
      UpdateOffset(indented + Quote(key), |indented|);
      ok := Append(colon, |colon|, indented + Quote(key));
    }

    /** The closing bracket. */
    method Close(closing: string, ghost opening: string, ghost all: string, ghost text: string) returns (ok: bool)
      requires At(text + opening + all) && NulFree(opening) && NulFree(all) && NulFree(closing)
      modifies this, buffer
      ensures depth == old(depth) && Kept() && Capacity() == old(Capacity())
      ensures if ok then |text| + |opening + all + closing| + 2 <= Capacity() else refused || |text| + |opening + all + closing| + 2 > Capacity()
      ensures ok ==> Ends(text + (opening + all + closing), |text|)
    {
      Associates(text, opening, all, closing);
      ok := Finish(closing, text + opening + all);
      assert (text + (opening + all + closing))[|text|..] == opening + all + closing;
    }
  }

  // ----- the pieces of the text

  function ItemText(v: Json, more: bool, fmt: bool, depth: nat): string {
    Print(v, fmt, depth) + (if more then "," + AfterComma(fmt) else "")
  }

  function OneText(m: Member, more: bool, fmt: bool, depth: nat): string {
    Indent(fmt, depth) + PrintMember(m, fmt, depth, more)
  }

  lemma ItemsStep(items: seq<Json>, i: nat, fmt: bool, depth: nat)
    requires i < |items|
    ensures PrintItems(items[i..], fmt, depth)
         == ItemText(items[i], i + 1 < |items|, fmt, depth) + PrintItems(items[i + 1..], fmt, depth)
  {
    assert items[i..][1..] == items[i + 1..];
  }

  lemma MembersStep(ms: seq<Member>, i: nat, fmt: bool, depth: nat)
    requires i < |ms|
    ensures PrintMembers(ms[i..], fmt, depth)
         == OneText(ms[i], i + 1 < |ms|, fmt, depth) + PrintMembers(ms[i + 1..], fmt, depth)
  {
    assert ms[i..][1..] == ms[i + 1..];
  }

  lemma QuoteAssociates(text: string, s: string)
    ensures text + "\"" + Escape(s) + "\"" == text + Quote(s)
    ensures (text + Quote(s))[|text|..] == Quote(s)
  {
  }

  lemma OneAssociates(text: string, a: string, b: string, c: string, d: string, e: string)
    ensures text + (a + b + c) + d + e == text + (a + (b + c + d + e))
  {
  }

  lemma OnePieces(text: string, m: Member, more: bool, fmt: bool, depth: nat)
    ensures text + OneText(m, more, fmt, depth)
         == text + (Indent(fmt, depth) + Quote(m.key) + (":" + AfterColon(fmt))) + Print(m.value, fmt, depth)
            + ((if more then "," else "") + NewLine(fmt))
  {
    var ending := (if more then "," else "") + NewLine(fmt);
    var colon, value := ":" + AfterColon(fmt), Print(m.value, fmt, depth);
    Reassociate(Quote(m.key) + colon + value, if more then "," else "", NewLine(fmt));
    OneAssociates(text, Indent(fmt, depth), Quote(m.key), colon, value, ending);
  }

  lemma Associates(text: string, a: string, b: string, c: string)
    ensures text + a + b + c == text + (a + b + c)
  {
  }

  lemma Reassociate(a: string, b: string, c: string)
    ensures a + (b + c) == a + b + c
  {
  }

  lemma ObjectPieces(ms: seq<Member>, fmt: bool, depth: nat)
    ensures Print(Object(ms), fmt, depth)
         == "{" + NewLine(fmt) + PrintMembers(ms, fmt, depth + 1) + (Indent(fmt, depth) + "}")
  {
    Reassociate("{" + NewLine(fmt) + PrintMembers(ms, fmt, depth + 1), Indent(fmt, depth), "}");
  }

  // ----- the entry points

  /** The buffer holds this C string. */
  ghost predicate Holds(b: array<char>, text: string)
    reads b
  {
    |text| < b.Length && b[..|text|] == text && b[|text|] == NUL
  }

  /** `cJSON_PrintPreallocated`: it succeeds exactly when there is room for the text and two characters more. */
  method PrintPreallocated(v: Json, b: array<char>, fmt: bool) returns (ok: bool)
    requires NulFreeTree(v) && b.Length <= INT_MAX
    modifies b
    ensures ok <==> |Print(v, fmt, 0)| + 2 <= b.Length
    ensures ok ==> Holds(b, Print(v, fmt, 0))
  {
    var p := new Printer(b, true, fmt);
    ok := p.PrintValue(v, "");
  }

  /** `cJSON_PrintBuffered`: the size of the first buffer has no influence. */
  method PrintBuffered(v: Json, prebuffer: int, fmt: bool) returns (r: Option<array<char>>, refused: bool)
    requires NulFreeTree(v) && prebuffer <= INT_MAX
    ensures r.Some? ==> 0 <= prebuffer && |Print(v, fmt, 0)| + 2 <= INT_MAX
    ensures r.None? ==> prebuffer < 0 || refused || |Print(v, fmt, 0)| + 2 > INT_MAX
    ensures r.Some? ==> fresh(r.value) && Holds(r.value, Print(v, fmt, 0))
  {
    r, refused := None, false;
    if prebuffer < 0 { return; }
    if * {
      refused := true;
      return;
    }
    var b := new char[prebuffer];
    var p := new Printer(b, false, fmt);
    var ok := p.PrintValue(v, "");
    r, refused := if ok then Some(p.buffer) else None, p.refused;
  }

  /** `cJSON_Print` and `cJSON_PrintUnformatted`: the result is cut to its length. */
  method PrintGrown(v: Json, fmt: bool) returns (r: Option<array<char>>, refused: bool)
    requires NulFreeTree(v)
    ensures r.Some? ==> |Print(v, fmt, 0)| + 2 <= INT_MAX
    ensures r.None? ==> refused || |Print(v, fmt, 0)| + 2 > INT_MAX
    ensures r.Some? ==> fresh(r.value) && r.value[..] == Print(v, fmt, 0) + [NUL]
  {
    r, refused := None, false;
    if * {
      refused := true;
      return;
    }
    var b := new char[256];
    var p := new Printer(b, false, fmt);
    var ok := p.PrintValue(v, "");
    refused := p.refused;
    if !ok { return; }
    p.UpdateOffset(Print(v, fmt, 0), 0);
    if * {
      refused := true;
      return;
    }
    var printed := CutTo(p.buffer, p.offset);
    r := Some(printed);
  }

  /** A copy of the text in a buffer of its own, with a terminator. */
  method CutTo(b: array<char>, length: nat) returns (printed: array<char>)
    requires length <= b.Length
    ensures fresh(printed) && printed[..] == b[..length] + [NUL]
  {
    printed := new char[length + 1];
    PutText(printed, 0, b[..length]);
    printed[length] := NUL;
    assert printed[..] == printed[..length] + [NUL];
  }

  // ----- through both buffers

  lemma {:induction false} CStrOf(t: string, junk: string)
    requires NulFree(t)
    ensures CStr(t + [NUL] + junk) == t
  {
    if t != "" {
      CStrOf(t[1..], junk);
      assert (t + [NUL] + junk)[1..] == t[1..] + [NUL] + junk;
    }
  }

  /** Printing into a buffer that is large enough and parsing what it holds gives the tree back. */
  method PrintThenParse(v: Json, b: array<char>, fmt: bool, hooks: Allocator) returns (ok: bool, r: Option<Item>)
    requires NulFreeTree(v) && Height(v) <= NESTING_LIMIT && b.Length <= INT_MAX
    modifies b, hooks
    ensures ok <==> |Print(v, fmt, 0)| + 2 <= b.Length
    ensures r.Some? <==> ok && hooks.refusals == old(hooks.refusals)
    ensures r.Some? ==> WellFormed(r.value.body) && Tree(r.value.body) == v
    ensures hooks.live == old(hooks.live) + if r.Some? then ItemBlocks(r.value) else multiset{}
  {
    r := None;
    ok := PrintPreallocated(v, b, fmt);
    if ok {
      ghost var t := Print(v, fmt, 0);
      assert b[..] == t + [NUL] + b[|t| + 1..];
      PrintNulFree(v, fmt, 0);
      CStrOf(t, b[|t| + 1..]);
      ParsePrintRoundTrip(v, fmt);
      var end;
      r, end := ParseWithOpts(CStr(b[..]), true, hooks);
    }
  }
}
