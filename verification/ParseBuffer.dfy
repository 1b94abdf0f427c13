/**
 The parse buffer: an offset and a depth over a terminated text, and the recursive descent that moves
 them. Parsing refines the functions on text; every read is inside the text, a failed parse leaves no
 block behind and a successful one owns exactly the blocks of its tree.
 */
module ParseBuffer {
  import opened CString
  import opened Json
  import opened JsonText
  import opened Allocation
  import opened UnescapePass

  /** The text ends with a terminator; there may be others before it. */
  predicate Terminated(content: string) {
    content != "" && content[|content| - 1] == NUL
  }

  // ----- numbers

  predicate NumberChar(c: char) {
    IsDigit(c) || c == '+' || c == '-' || FractionOrExponent(c)
  }

  /** Cutting the text at a character that is in no number does not change what is read. */
  lemma {:induction false} ReadDigitsCut(t: string, i: nat, acc: nat)
    requires i <= |t| && (i < |t| ==> !NumberChar(t[i]))
    ensures ReadDigits(t[..i], acc).0 == ReadDigits(t, acc).0
    ensures |t| - |ReadDigits(t, acc).1| == i - |ReadDigits(t[..i], acc).1|
    ensures FractionOrExponent(At(ReadDigits(t[..i], acc).1, 0)) == FractionOrExponent(At(ReadDigits(t, acc).1, 0))
  {
    if i > 0 && IsDigit(t[0]) {
      assert t[..i][1..] == t[1..][..i - 1];
      ReadDigitsCut(t[1..], i - 1, 10 * acc + (t[0] as int - '0' as int));
    }
  }

  lemma StrtodCut(t: string, i: nat)
    requires i <= |t| && (i < |t| ==> !NumberChar(t[i]))
    ensures Strtod(t[..i]) == Strtod(t)
  {
    if i > 0 && t[0] == '-' {
      assert t[..i][1..] == t[1..][..i - 1];
      ReadDigitsCut(t[1..], i - 1, 0);
    } else {
      ReadDigitsCut(t, i, 0);
    }
  }

  /** What is read of a number is not a terminator. */
  lemma {:induction false} ReadDigitsChars(t: string, acc: nat)
    ensures forall k :: 0 <= k < |t| - |ReadDigits(t, acc).1| ==> IsDigit(t[k])
  {
    if t != "" && IsDigit(t[0]) {
      ReadDigitsChars(t[1..], 10 * acc + (t[0] as int - '0' as int));
    }
  }

  lemma StrtodLast(t: string)
    requires Strtod(t).Some?
    ensures IsDigit(t[Strtod(t).value.1 - 1])
  {
    if t[0] == '-' {
      ReadDigitsChars(t[1..], 0);
    } else {
      ReadDigitsChars(t, 0);
    }
  }

  // ----- results put together

  function PrependItems(xs: seq<Json>, p: Parsed<seq<Json>>): Parsed<seq<Json>> {
    if p.Fail? then Fail else Ok(xs + p.value, p.rest)
  }

  function PrependMembers(xs: seq<Member>, p: Parsed<seq<Member>>): Parsed<seq<Member>> {
    if p.Fail? then Fail else Ok(xs + p.value, p.rest)
  }

  class Parser {
    const content: string
    const hooks: Allocator
    var offset: nat
    var depth: nat

    constructor (content: string, hooks: Allocator)
      ensures this.content == content && this.hooks == hooks && offset == 0 && depth == 0
    {
      this.content, this.hooks, this.offset, this.depth := content, hooks, 0, 0;
    }

    /** `rest` is what is left to read, and there is something left. */
    ghost predicate Left(rest: string)
      reads this
    {
      Terminated(content) && offset < |content| && content[offset..] == rest
    }

    /** Reading `k` characters. */
    method Advance(k: nat, ghost rest: string)
      requires Left(rest) && k < |rest|
      modifies this`offset
      ensures Left(rest[k..]) && offset == old(offset) + k
    {
      offset := offset + k;
    }

    /** `buffer_skip_whitespace`. The terminator counts as white space, so the step back does happen. */
    method SkipWhitespace(ghost rest: string)
      requires Left(rest)
      modifies this`offset
      ensures Left(Skip(rest)) && offset >= old(offset)
    {
      while offset < |content| && Space(content[offset])
        invariant old(offset) <= offset <= |content|
        invariant DropSpace(content[offset..]) == DropSpace(rest)
      {
        assert content[offset..][1..] == content[offset + 1..];
        offset := offset + 1;
      }
      if offset == |content| {
        offset := offset - 1;
        assert content[offset..] == rest[|rest| - 1..];
      }
    }

    /** Past a character that is not the terminator, and the white space after it. */
    method AdvanceAndSkip(ghost rest: string)
      requires Left(rest) && rest[0] != NUL
      modifies this`offset
      ensures Left(Skip(rest[1..])) && offset > old(offset)
    {
      Advance(1, rest);
      SkipWhitespace(rest[1..]);
    }

    /** `skip_utf8_bom`, then the white space. */
    method SkipBomAndSpace()
      requires Left(content) && offset == 0
      modifies this`offset
      ensures Left(Skip(SkipBom(content)))
    {
      if |content| > 4 && content[..3] == BOM {
        Advance(3, content);
        SkipWhitespace(content[3..]);
      } else {
        SkipWhitespace(content);
      }
    }

    /** `parse_number`: the characters of the number are copied for `strtod`. */
    method ParseDigits(ghost rest: string) returns (ok: bool, n: Num)
      requires Left(rest)
      modifies this`offset
      ensures ok <==> ParseNumber(rest).Ok?
      ensures ok ==> n == ParseNumber(rest).value && Left(ParseNumber(rest).rest) && offset > old(offset)
      ensures !ok ==> offset == old(offset)
    {
      var token := CopyNumber(rest);
      NumberToken(rest, |token|);
      var s := Strtod(token);
      n := 0;
      ok := s.Some? && -NUM_LIMIT < s.value.0 < NUM_LIMIT;
      if ok {
        n := s.value.0;
        Advance(s.value.1, rest);
      }
    }

    /** At most 63 characters, up to the first that is in no number. */
    method CopyNumber(ghost rest: string) returns (token: string)
      requires Left(rest)
      ensures |token| <= 63 && |token| <= |rest| && token == rest[..|token|]
      ensures |token| == 63 || (|token| < |rest| ==> !NumberChar(rest[|token|]))
    {
      var copy := new char[64];
      var i := 0;
      while i < 63 && offset + i < |content| && NumberChar(content[offset + i])
        invariant 0 <= i <= 63 && i <= |rest|
        invariant copy[..i] == rest[..i]
      {
        CopyOne(copy, i, content[offset + i]);
        assert rest[..i + 1] == rest[..i] + [rest[i]];
        i := i + 1;
      }
      assert i < |rest| ==> rest[i] == content[offset + i];
      token := copy[..i];
    }

    /** `parse_string`, both passes. */
    method ReadString(ghost rest: string) returns (ok: bool, block: Option<Block>)
      requires Left(rest)
      modifies this`offset, hooks
      ensures ok <==> ParseString(rest).Ok? && hooks.refusals == old(hooks.refusals)
      ensures ok ==>
        && Left(ParseString(rest).rest) && offset > old(offset)
        && block.Some? && block.value.text == ParseString(rest).value
        && hooks.live == old(hooks.live) + multiset{block.value.addr}
      ensures !ok ==> block.None? && hooks.live == old(hooks.live)
    {
      var start := offset + 1;
      ok, block := false, None;
      if content[offset] != '"' {
        offset := start;
        return;
      }
      assert content[start..] == rest[1..];
      var end, skipped, found := Scan(content, start);
      if !found {
        offset := start;
        return;
      }
      QuotedBody(content, rest, start, end);
      var a := hooks.Allocate();
      if a.None? {
        offset := start;
        return;
      }
      var output := new char[end - (start - 1) - skipped + 1];
      var size, at;
      ok, size, at := UnescapeInto(content, start, end, output);
      if !ok {
        hooks.Free(a.value, old(hooks.live));
        offset := at;
        return;
      }
      block := Some(Block(a.value, CStr(output[..size + 1])));
      CStrTerminated(Unescape(content[start..end]).value);
      offset := end + 1;
    }

    // ----- values

    /** `parse_value`: agrees with the function on text, moves on, restores the depth and accounts for every block. */
    method ReadValue(ghost rest: string, ghost p: Parsed<Json>) returns (ok: bool, body: Body)
      requires Left(rest)
      requires p == ParseValue(rest, depth)
      modifies this, hooks
      ensures ok <==> p.Ok? && hooks.refusals == old(hooks.refusals)
      ensures ok ==> Read(p, body) && offset > old(offset) && depth == old(depth)
      ensures hooks.live == old(hooks.live) + BodyBlocks(body)
      ensures !ok ==> body == Nothing
      decreases |content| - offset, 2
    {
      ok, body := true, Nothing;
      var word := Literal(rest);
      ValueIs(rest, depth);
      if word == 1 {
        body := Plain(Null);
        Advance(4, rest);
      } else if word == 2 {
        body := Plain(False);
        Advance(5, rest);
      } else if word == 3 {
        body := Plain(True);
        Advance(4, rest);
      } else {
        ok, body := ReadOther(rest, p);
      }
    }

    /** The other branches of `parse_value`. */
    method ReadOther(ghost rest: string, ghost p: Parsed<Json>) returns (ok: bool, body: Body)
      requires Left(rest)
      requires p == NonWord(rest, depth)
      modifies this, hooks
      ensures ok <==> p.Ok? && hooks.refusals == old(hooks.refusals)
      ensures ok ==> Read(p, body) && depth == old(depth)
      ensures hooks.live == old(hooks.live) + BodyBlocks(body)
      ensures !ok ==> body == Nothing
      decreases |content| - offset, 1
    {
      ok, body := false, Nothing;
      if content[offset] == '"' {
        var block;
        ok, block := ReadString(rest);
        if ok { body := Text(block.value); }
      } else if content[offset] == '-' || IsDigit(content[offset]) {
        var n;
        ok, n := ParseDigits(rest);
        if ok { body := Plain(Number(n)); }
      } else if content[offset] == '[' {
        ok, body := ReadArray(rest, p);
      } else if content[offset] == '{' {
        ok, body := ReadObject(rest, p);
      }
    }

    /** The whole text: byte order mark, white space, value, and the end if it is asked for. */
    method ReadDocument(requireEnd: bool, ghost q: Parsed<Json>) returns (ok: bool, body: Body)
      requires Left(content) && offset == 0 && depth == 0 && q == ParseContent(content, requireEnd)
      modifies this, hooks
      ensures ok <==> q.Ok? && hooks.refusals == old(hooks.refusals)
      ensures ok ==> Read(q, body) && Height(q.value) <= NESTING_LIMIT
      ensures hooks.live == old(hooks.live) + BodyBlocks(body)
    {
      SkipBomAndSpace();
      ghost var rest := Skip(SkipBom(content));
      ghost var p := ParseValue(rest, 0);
      ParsedHeight(rest, 0);
      ok, body := ReadValue(rest, p);
      if ok && requireEnd {
        SkipWhitespace(p.rest);
        ok := content[offset] == NUL;
      }
    }

    /** What is left, and the tree, are those of `p`. */
    ghost predicate Read(p: Parsed<Json>, body: Body)
      reads this
    {
      p.Ok? && Left(p.rest) && WellFormed(body) && Tree(body) == p.value
    }

    /** Which of the three words is next, if one is. */
    method Literal(ghost rest: string) returns (word: int)
      requires Left(rest)
      ensures word == WordAt(rest)
    {
      if offset + 4 <= |content| && content[offset..offset + 4] == "null" { return 1; }
      if offset + 5 <= |content| && content[offset..offset + 5] == "false" { return 2; }
      if offset + 4 <= |content| && content[offset..offset + 4] == "true" { return 3; }
      return 0;
    }

    /** `parse_array`. */
    method ReadArray(ghost rest: string, ghost p: Parsed<Json>) returns (ok: bool, body: Body)
      requires Left(rest) && rest[0] == '['
      requires p == ParseArray(rest, depth)
      modifies this, hooks
      ensures ok <==> p.Ok? && hooks.refusals == old(hooks.refusals)
      ensures ok ==> Read(p, body) && depth == old(depth)
      ensures hooks.live == old(hooks.live) + BodyBlocks(body)
      ensures !ok ==> body == Nothing
      decreases |content| - offset, 0
    {
      ok, body := false, Nothing;
      if depth >= NESTING_LIMIT { return; }
      ghost var s := Skip(rest[1..]);
      ArrayIs(rest, depth, s);
      depth := depth + 1;
      AdvanceAndSkip(rest);
      ok, body := ReadArrayTail(s, p);
    }

    /** The rest of `parse_array`, after the bracket. */
    method ReadArrayTail(ghost s: string, ghost p: Parsed<Json>) returns (ok: bool, body: Body)
      requires Left(s) && 0 < depth <= NESTING_LIMIT && 0 < offset
      requires p == ArrayTail(s, depth)
      modifies this, hooks
      ensures ok <==> p.Ok? && hooks.refusals == old(hooks.refusals)
      ensures ok ==> Read(p, body) && depth == old(depth) - 1
      ensures hooks.live == old(hooks.live) + BodyBlocks(body)
      ensures !ok ==> body == Nothing
      decreases |content| - offset, 10
    {
      if content[offset] == ']' {
        depth := depth - 1;
        Advance(1, s);
        ok, body := true, Elements([]);
      } else {
        ok, body := ReadSomeElements(s, ParseItems(s, depth));
      }
    }

    /** The rest of `parse_array`, if there is a first element. */
    method ReadSomeElements(ghost s: string, ghost p: Parsed<seq<Json>>) returns (ok: bool, body: Body)
      requires Left(s) && 0 < depth <= NESTING_LIMIT && 0 < offset
      requires p == ParseItems(s, depth)
      modifies this, hooks
      ensures ok <==> p.Ok? && hooks.refusals == old(hooks.refusals)
      ensures ok ==> Left(p.rest) && WellFormed(body) && Tree(body) == Array(p.value) && depth == old(depth) - 1
      ensures hooks.live == old(hooks.live) + BodyBlocks(body)
      ensures !ok ==> body == Nothing
      decreases |content| - offset, 9
    {
      offset := offset - 1;
      var items;
      ok, items := ReadElements(s, p);
      body := Nothing;
      if ok {
        depth := depth - 1;
        body := Elements(items);
      }
    }

    /** `rest` starts at the character after the offset. */
    ghost predicate Before(rest: string)
      reads this
    {
      Terminated(content) && offset + 1 < |content| && content[offset + 1..] == rest
    }

    /** The element loop, from the character in front of the first element to the closing bracket. */
    method ReadElements(ghost rest: string, ghost p: Parsed<seq<Json>>) returns (ok: bool, items: seq<Item>)
      requires Before(rest) && depth <= NESTING_LIMIT
      requires p == ParseItems(rest, depth)
      modifies this, hooks
      ensures ok <==> p.Ok? && hooks.refusals == old(hooks.refusals)
      ensures ok ==> Left(p.rest) && depth == old(depth)
      ensures ok ==> AllWellFormed(items) && Trees(items) == p.value
      ensures hooks.live == old(hooks.live) + ItemsBlocks(items)
      ensures !ok ==> items == []
      decreases |content| - (offset + 1), 8
    {
      ghost var kept, r, q := hooks.live, rest, p;
      var more := true;
      ok, items := true, [];
      PrependNoItems(p);
      while more
        invariant depth == old(depth) || !ok
        invariant hooks.live == old(hooks.live) + ItemsBlocks(items)
        invariant ok ==> AllWellFormed(items)
        invariant more ==> ok && Before(r) && offset >= old(offset) && q == ParseItems(r, depth)
        invariant more ==> p == PrependItems(Trees(items), q)
        invariant more ==> hooks.refusals == old(hooks.refusals)
        invariant !more ==> (ok <==> p.Ok? && hooks.refusals == old(hooks.refusals))
        invariant !more && ok ==> Left(p.rest) && Trees(items) == p.value
        invariant !ok ==> items == []
        decreases more, |content| - offset
      {
        more, ok, items, r, q := StepElement(items, r, q, p, kept);
      }
    }

    /** One round of the loop, against the text. */
    method StepElement(before: seq<Item>, ghost r: string, ghost q: Parsed<seq<Json>>, ghost p: Parsed<seq<Json>>,
                       ghost kept: multiset<nat>)
      returns (more: bool, ok: bool, items: seq<Item>, ghost rest: string, ghost left: Parsed<seq<Json>>)
      requires Before(r) && depth <= NESTING_LIMIT && AllWellFormed(before) && hooks.live == kept + ItemsBlocks(before)
      requires q == ParseItems(r, depth) && p == PrependItems(Trees(before), q)
      modifies this, hooks
      ensures hooks.live == kept + ItemsBlocks(items)
      ensures ok ==> depth == old(depth) && offset > old(offset) && AllWellFormed(items)
      ensures more ==> ok && Before(rest) && left == ParseItems(rest, depth) && p == PrependItems(Trees(items), left)
      ensures more ==> hooks.refusals == old(hooks.refusals)
      ensures !more ==> (ok <==> p.Ok? && hooks.refusals == old(hooks.refusals))
      ensures !more && ok ==> Left(p.rest) && Trees(items) == p.value
      ensures !ok ==> items == []
      decreases |content| - (offset + 1), 7
    {
      ghost var e := Element(r, depth);
      left := ItemsRound(Trees(before), r, depth, e, q, p);
      more, ok, items := NextElement(before, r, e, kept);
      rest := if more then e.rest[1..] else "";
    }

    /** One round of the loop, and what follows it if it is the last one. */
    method NextElement(before: seq<Item>, ghost r: string, ghost e: Parsed<Json>, ghost kept: multiset<nat>)
      returns (more: bool, ok: bool, items: seq<Item>)
      requires Before(r) && AllWellFormed(before) && hooks.live == kept + ItemsBlocks(before)
      requires e == Element(r, depth)
      modifies this, hooks
      ensures hooks.live == kept + ItemsBlocks(items)
      ensures more <==> e.Ok? && e.rest != "" && e.rest[0] == ',' && hooks.refusals == old(hooks.refusals)
      ensures ok <==> more || (e.Ok? && e.rest != "" && e.rest[0] == ']' && hooks.refusals == old(hooks.refusals))
      ensures ok ==> AllWellFormed(items) && Trees(items) == Trees(before) + [e.value]
      ensures ok ==> depth == old(depth) && offset > old(offset)
      ensures more ==> Before(e.rest[1..])
      ensures ok && !more ==> Left(e.rest[1..])
      ensures !ok ==> items == []
      decreases |content| - (offset + 1), 6
    {
      var added;
      ok, added := AddElement(before, r, e, kept);
      more, items := false, [];
      if ok {
        more, ok, items := CommaOrClose(added, ']', e.rest, kept);
        assert ok ==> items == added;
      }
    }

    /** A comma, the closing bracket, or nothing is left of the list. */
    method CommaOrClose(before: seq<Item>, bracket: char, ghost rest: string, ghost kept: multiset<nat>)
      returns (more: bool, ok: bool, items: seq<Item>)
      requires Left(rest) && bracket != NUL && hooks.live == kept + ItemsBlocks(before)
      modifies this`offset, hooks`live
      ensures more <==> rest[0] == ','
      ensures ok <==> more || rest[0] == bracket
      ensures more ==> offset == old(offset) && Before(rest[1..])
      ensures ok && !more ==> offset > old(offset) && Left(rest[1..])
      ensures hooks.live == kept + ItemsBlocks(items)
      ensures items == if ok then before else []
    {
      items := before;
      more := content[offset] == ',';
      ok := more || content[offset] == bracket;
      if !ok {
        hooks.Delete(items, kept);
        items := [];
      } else if !more {
        Advance(1, rest);
      }
    }

    /** One round of the loop: the new element, or nothing is left of the list. */
    method AddElement(before: seq<Item>, ghost r: string, ghost e: Parsed<Json>, ghost kept: multiset<nat>) returns (ok: bool, items: seq<Item>)
      requires Before(r) && AllWellFormed(before) && hooks.live == kept + ItemsBlocks(before)
      requires e == Element(r, depth)
      modifies this, hooks
      ensures ok <==> e.Ok? && hooks.refusals == old(hooks.refusals)
      ensures ok ==> Left(e.rest) && depth == old(depth) && offset > old(offset)
      ensures ok ==> AllWellFormed(items) && Trees(items) == Trees(before) + [e.value]
      ensures hooks.live == kept + ItemsBlocks(items)
      ensures !ok ==> items == []
      decreases |content| - (offset + 1), 5
    {
      var a := hooks.Allocate();
      if a.None? {
        hooks.Delete(before, kept);
        return false, [];
      }
      var item;
      ok, item := ReadElement(a.value, r, e, kept + ItemsBlocks(before));
      ItemsBlocksAppend(before, item);
      Associate(kept, ItemsBlocks(before), ItemBlocks(item));
      items := before + [item];
      if ok {
        TreesAppend(before, item);
      } else {
        hooks.Delete(items, kept);
        items := [];
      }
    }

    /** The value of a new item. */
    method ReadElement(a: nat, ghost r: string, ghost e: Parsed<Json>, ghost kept: multiset<nat>) returns (ok: bool, item: Item)
      requires Before(r) && hooks.live == kept + multiset{a}
      requires e == Element(r, depth)
      modifies this, hooks
      ensures ok <==> e.Ok? && hooks.refusals == old(hooks.refusals)
      ensures ok ==> Left(e.rest) && depth == old(depth) && offset > old(offset)
      ensures ok ==> item.name.None? && WellFormed(item.body) && Tree(item.body) == e.value
      ensures hooks.live == kept + ItemBlocks(item)
      decreases |content| - (offset + 1), 4
    {
      var body;
      ok, body := ReadSpaced(r, e);
      item := Item(a, None, body);
      Nest(kept, multiset{a}, NameBlocks(None), BodyBlocks(body));
    }

    /** A value and the white space around it. */
    method ReadSpaced(ghost r: string, ghost e: Parsed<Json>) returns (ok: bool, body: Body)
      requires Before(r)
      requires e == Element(r, depth)
      modifies this, hooks
      ensures ok <==> e.Ok? && hooks.refusals == old(hooks.refusals)
      ensures ok ==> Read(e, body) && depth == old(depth) && offset > old(offset)
      ensures hooks.live == old(hooks.live) + BodyBlocks(body)
      decreases |content| - (offset + 1), 3
    {
      offset := offset + 1;
      SkipWhitespace(r);
      ghost var p := ParseValue(Skip(r), depth);
      ok, body := ReadValue(Skip(r), p);
      if ok {
        SkipWhitespace(p.rest);
      }
    }

    /** `parse_object`. */
    method ReadObject(ghost rest: string, ghost p: Parsed<Json>) returns (ok: bool, body: Body)
      requires Left(rest) && rest[0] == '{'
      requires p == ParseObject(rest, depth)
      modifies this, hooks
      ensures ok <==> p.Ok? && hooks.refusals == old(hooks.refusals)
      ensures ok ==> Read(p, body) && depth == old(depth)
      ensures hooks.live == old(hooks.live) + BodyBlocks(body)
      ensures !ok ==> body == Nothing
      decreases |content| - offset, 0
    {
      ok, body := false, Nothing;
      if depth >= NESTING_LIMIT { return; }
      ghost var s := Skip(rest[1..]);
      ObjectIs(rest, depth, s);
      depth := depth + 1;
      AdvanceAndSkip(rest);
      ok, body := ReadObjectTail(s, p);
    }

    /** The rest of `parse_object`, after the brace. */
    method ReadObjectTail(ghost s: string, ghost p: Parsed<Json>) returns (ok: bool, body: Body)
      requires Left(s) && 0 < depth <= NESTING_LIMIT && 0 < offset
      requires p == ObjectTail(s, depth)
      modifies this, hooks
      ensures ok <==> p.Ok? && hooks.refusals == old(hooks.refusals)
      ensures ok ==> Read(p, body) && depth == old(depth) - 1
      ensures hooks.live == old(hooks.live) + BodyBlocks(body)
      ensures !ok ==> body == Nothing
      decreases |content| - offset, 10
    {
      if content[offset] == '}' {
        depth := depth - 1;
        Advance(1, s);
        ok, body := true, Members([]);
      } else {
        ok, body := ReadSomeMembers(s, ParseMembers(s, depth));
      }
    }

    /** The rest of `parse_object`, if there is a first member. */
    method ReadSomeMembers(ghost s: string, ghost p: Parsed<seq<Member>>) returns (ok: bool, body: Body)
      requires Left(s) && 0 < depth <= NESTING_LIMIT && 0 < offset
      requires p == ParseMembers(s, depth)
      modifies this, hooks
      ensures ok <==> p.Ok? && hooks.refusals == old(hooks.refusals)
      ensures ok ==> Left(p.rest) && WellFormed(body) && Tree(body) == Object(p.value) && depth == old(depth) - 1
      ensures hooks.live == old(hooks.live) + BodyBlocks(body)
      ensures !ok ==> body == Nothing
      decreases |content| - offset, 9
    {
      offset := offset - 1;
      var items;
      ok, items := ReadMembers(s, p);
      body := Nothing;
      if ok {
        depth := depth - 1;
        body := Members(items);
      }
    }

    /** The member loop, from the character in front of the first member to the closing brace. */
    method ReadMembers(ghost rest: string, ghost p: Parsed<seq<Member>>) returns (ok: bool, items: seq<Item>)
      requires Before(rest) && depth <= NESTING_LIMIT
      requires p == ParseMembers(rest, depth)
      modifies this, hooks
      ensures ok <==> p.Ok? && hooks.refusals == old(hooks.refusals)
      ensures ok ==> Left(p.rest) && depth == old(depth)
      ensures ok ==> AllMembers(items) && MemberTrees(items) == p.value
      ensures hooks.live == old(hooks.live) + ItemsBlocks(items)
      ensures !ok ==> items == []
      decreases |content| - (offset + 1), 8
    {
      ghost var kept, r, q := hooks.live, rest, p;
      var more := true;
      ok, items := true, [];
      PrependNoMembers(p);
      while more
        invariant depth == old(depth) || !ok
        invariant hooks.live == old(hooks.live) + ItemsBlocks(items)
        invariant ok ==> AllMembers(items)
        invariant more ==> ok && Before(r) && offset >= old(offset) && q == ParseMembers(r, depth)
        invariant more ==> p == PrependMembers(MemberTrees(items), q)
        invariant more ==> hooks.refusals == old(hooks.refusals)
        invariant !more ==> (ok <==> p.Ok? && hooks.refusals == old(hooks.refusals))
        invariant !more && ok ==> Left(p.rest) && MemberTrees(items) == p.value
        invariant !ok ==> items == []
        decreases more, |content| - offset
      {
        more, ok, items, r, q := StepMember(items, r, q, p, kept);
      }
    }

    /** One round of the loop, against the text. */
    method StepMember(before: seq<Item>, ghost r: string, ghost q: Parsed<seq<Member>>, ghost p: Parsed<seq<Member>>,
                       ghost kept: multiset<nat>)
      returns (more: bool, ok: bool, items: seq<Item>, ghost rest: string, ghost left: Parsed<seq<Member>>)
      requires Before(r) && depth <= NESTING_LIMIT && AllMembers(before) && hooks.live == kept + ItemsBlocks(before)
      requires q == ParseMembers(r, depth) && p == PrependMembers(MemberTrees(before), q)
      modifies this, hooks
      ensures hooks.live == kept + ItemsBlocks(items)
      ensures ok ==> depth == old(depth) && offset > old(offset) && AllMembers(items)
      ensures more ==> ok && Before(rest) && left == ParseMembers(rest, depth) && p == PrependMembers(MemberTrees(items), left)
      ensures more ==> hooks.refusals == old(hooks.refusals)
      ensures !more ==> (ok <==> p.Ok? && hooks.refusals == old(hooks.refusals))
      ensures !more && ok ==> Left(p.rest) && MemberTrees(items) == p.value
      ensures !ok ==> items == []
      decreases |content| - (offset + 1), 7
    {
      ghost var e := Pair(r, depth);
      left := MembersRound(MemberTrees(before), r, depth, e, q, p);
      more, ok, items := NextMember(before, r, e, kept);
      rest := if more then e.rest[1..] else "";
    }

    /** One round of the loop, and what follows it if it is the last one. */
    method NextMember(before: seq<Item>, ghost r: string, ghost e: Parsed<Member>, ghost kept: multiset<nat>)
      returns (more: bool, ok: bool, items: seq<Item>)
      requires Before(r) && AllMembers(before) && hooks.live == kept + ItemsBlocks(before)
      requires e == Pair(r, depth)
      modifies this, hooks
      ensures hooks.live == kept + ItemsBlocks(items)
      ensures more <==> e.Ok? && e.rest != "" && e.rest[0] == ',' && hooks.refusals == old(hooks.refusals)
      ensures ok <==> more || (e.Ok? && e.rest != "" && e.rest[0] == '}' && hooks.refusals == old(hooks.refusals))
      ensures ok ==> AllMembers(items) && MemberTrees(items) == MemberTrees(before) + [e.value]
      ensures ok ==> depth == old(depth) && offset > old(offset)
      ensures more ==> Before(e.rest[1..])
      ensures ok && !more ==> Left(e.rest[1..])
      ensures !ok ==> items == []
      decreases |content| - (offset + 1), 6
    {
      ok, items := AddMember(before, r, e, kept);
      more := false;
      if ok {
        ghost var added, rest := items, e.rest;
        assert rest != "" && hooks.refusals == old(hooks.refusals);
        more, ok, items := CommaOrClose(items, '}', rest, kept);
        assert items == if ok then added else [];
      }
    }

    /** One round of the loop: the new member, or nothing is left of the list. */
    method AddMember(before: seq<Item>, ghost r: string, ghost e: Parsed<Member>, ghost kept: multiset<nat>) returns (ok: bool, items: seq<Item>)
      requires Before(r) && AllMembers(before) && hooks.live == kept + ItemsBlocks(before)
      requires e == Pair(r, depth)
      modifies this, hooks
      ensures ok <==> e.Ok? && hooks.refusals == old(hooks.refusals)
      ensures ok ==> Left(e.rest) && depth == old(depth) && offset > old(offset)
      ensures ok ==> AllMembers(items) && MemberTrees(items) == MemberTrees(before) + [e.value]
      ensures hooks.live == kept + ItemsBlocks(items)
      ensures !ok ==> items == []
      decreases |content| - (offset + 1), 5
    {
      var a := hooks.Allocate();
      if a.None? {
        hooks.Delete(before, kept);
        return false, [];
      }
      var item;
      ok, item := ReadMember(a.value, r, e, kept + ItemsBlocks(before));
      ItemsBlocksAppend(before, item);
      Associate(kept, ItemsBlocks(before), ItemBlocks(item));
      items := before + [item];
      if ok {
        MemberTreesAppend(before, item);
      } else {
        hooks.Delete(items, kept);
        items := [];
      }
    }

    /** The key and the value of a new item. Whatever was allocated is reachable from the item. */
    method ReadMember(a: nat, ghost r: string, ghost e: Parsed<Member>, ghost kept: multiset<nat>) returns (ok: bool, item: Item)
      requires Before(r) && hooks.live == kept + multiset{a}
      requires e == Pair(r, depth)
      modifies this, hooks
      ensures ok <==> e.Ok? && hooks.refusals == old(hooks.refusals)
      ensures ok ==> Left(e.rest) && depth == old(depth) && offset > old(offset)
      ensures ok ==> item.name.Some? && WellFormed(item.body)
      ensures ok ==> Member(item.name.value.text, Tree(item.body)) == e.value
      ensures hooks.live == kept + ItemBlocks(item)
      decreases |content| - (offset + 1), 4
    {
      ghost var k := Name(r);
      var name, body;
      ok, name := ReadName(r, k);
      body := Nothing;
      if ok {
        ghost var p := ParseValue(k.rest, depth);
        ok, body := ReadValue(k.rest, p);
        if ok {
          SkipWhitespace(p.rest);
        }
      }
      item := Item(a, name, body);
      Nest(kept, multiset{a}, NameBlocks(name), BodyBlocks(body));
    }

    /** The key and the colon; the key that was read is kept even if the colon is missing. */
    method ReadName(ghost r: string, ghost p: Parsed<string>) returns (ok: bool, name: Option<Block>)
      requires Before(r) && p == Name(r)
      modifies this`offset, hooks
      ensures ok <==> p.Ok? && hooks.refusals == old(hooks.refusals)
      ensures ok ==> Left(p.rest) && name.Some? && name.value.text == p.value && offset > old(offset)
      ensures hooks.live == old(hooks.live) + NameBlocks(name)
    {
      offset := offset + 1;
      SkipWhitespace(r);
      ok, name := ReadString(Skip(r));
      if !ok { return; }
      ghost var k := ParseString(Skip(r));
      SkipWhitespace(k.rest);
      if content[offset] != ':' {
        ok := false;
        return;
      }
      AdvanceAndSkip(Skip(k.rest));
    }
  }

  /** A value with the white space around it. */
  function Element(r: string, depth: nat): (p: Parsed<Json>)
    ensures p.Ok? ==> |p.rest| < |r|
  {
    var p := ParseValue(Skip(r), depth);
    if p.Fail? then Fail else Ok(p.value, Skip(p.rest))
  }

  /** A key with its colon, up to the value. */
  function Name(r: string): (p: Parsed<string>)
    ensures p.Ok? ==> |p.rest| < |r|
  {
    var k := ParseString(Skip(r));
    if k.Fail? then Fail
    else
      var c := Skip(k.rest);
      if c == "" || c[0] != ':' then Fail else Ok(k.value, Skip(c[1..]))
  }

  /** A member with the white space around it. */
  function Pair(r: string, depth: nat): (p: Parsed<Member>)
    ensures p.Ok? ==> |p.rest| < |r|
  {
    var k := Name(r);
    if k.Fail? then Fail
    else
      var v := ParseValue(k.rest, depth);
      if v.Fail? then Fail else Ok(Member(k.value, v.value), Skip(v.rest))
  }

  lemma PairIs(r: string, depth: nat)
    requires depth <= NESTING_LIMIT
    ensures var m := ParseMember(r, depth); Pair(r, depth) == if m.Fail? then Fail else Ok(m.value, Skip(m.rest))
  {
  }

  /** `ParseValue` on a text that does not start with one of the three words. */
  function NonWord(r: string, depth: nat): (p: Parsed<Json>)
    requires r != ""
    ensures p.Ok? ==> |p.rest| < |r|
  {
    if r[0] == '"' then
      var p := ParseString(r);
      if p.Fail? then Fail else Ok(Str(p.value), p.rest)
    else if r[0] == '-' || IsDigit(r[0]) then
      var p := ParseNumber(r);
      if p.Fail? then Fail else Ok(Number(p.value), p.rest)
    else if r[0] == '[' then ParseArray(r, depth)
    else if r[0] == '{' then ParseObject(r, depth)
    else Fail
  }

  lemma ValueIs(r: string, depth: nat)
    requires Terminated(r)
    ensures WordAt(r) == 1 ==> ParseValue(r, depth) == Ok(Null, r[4..]) && |r| > 4
    ensures WordAt(r) == 2 ==> ParseValue(r, depth) == Ok(False, r[5..]) && |r| > 5
    ensures WordAt(r) == 3 ==> ParseValue(r, depth) == Ok(True, r[4..]) && |r| > 4
    ensures WordAt(r) == 0 ==> ParseValue(r, depth) == NonWord(r, depth)
  {
    assert "null" <= r ==> r[3] == 'l';
    assert "true" <= r ==> r[3] == 'e';
    assert "false" <= r ==> r[4] == 'e';
  }

  /** One round of the element loop, on the text. */
  lemma ItemsRound(xs: seq<Json>, r: string, depth: nat, e: Parsed<Json>, q: Parsed<seq<Json>>, p: Parsed<seq<Json>>)
    returns (more: Parsed<seq<Json>>)
    requires depth <= NESTING_LIMIT && e == Element(r, depth) && q == ParseItems(r, depth) && p == PrependItems(xs, q)
    ensures e.Fail? ==> p.Fail?
    ensures e.Ok? && e.rest != "" && e.rest[0] == ',' ==>
      more == ParseItems(e.rest[1..], depth) && p == PrependItems(xs + [e.value], more)
    ensures e.Ok? && e.rest != "" && e.rest[0] == ']' ==> p == Ok(xs + [e.value], e.rest[1..])
    ensures e.Ok? && e.rest != "" && e.rest[0] != ',' && e.rest[0] != ']' ==> p.Fail?
  {
    more := Fail;
    if e.Ok? && e.rest != "" && e.rest[0] == ',' {
      more := ParseItems(e.rest[1..], depth);
      if more.Ok? {
        assert xs + ([e.value] + more.value) == xs + [e.value] + more.value;
      }
    }
  }

  lemma PrependNoItems(p: Parsed<seq<Json>>)
    ensures PrependItems([], p) == p
  {
    if p.Ok? {
      assert [] + p.value == p.value;
    }
  }

  /** One round of the member loop, on the text. */
  lemma MembersRound(xs: seq<Member>, r: string, depth: nat, e: Parsed<Member>, q: Parsed<seq<Member>>, p: Parsed<seq<Member>>)
    returns (more: Parsed<seq<Member>>)
    requires depth <= NESTING_LIMIT && e == Pair(r, depth) && q == ParseMembers(r, depth) && p == PrependMembers(xs, q)
    ensures e.Fail? ==> p.Fail?
    ensures e.Ok? && e.rest != "" && e.rest[0] == ',' ==>
      more == ParseMembers(e.rest[1..], depth) && p == PrependMembers(xs + [e.value], more)
    ensures e.Ok? && e.rest != "" && e.rest[0] == '}' ==> p == Ok(xs + [e.value], e.rest[1..])
    ensures e.Ok? && e.rest != "" && e.rest[0] != ',' && e.rest[0] != '}' ==> p.Fail?
  {
    PairIs(r, depth);
    more := Fail;
    if e.Ok? && e.rest != "" && e.rest[0] == ',' {
      more := ParseMembers(e.rest[1..], depth);
      if more.Ok? {
        assert xs + ([e.value] + more.value) == xs + [e.value] + more.value;
      }
    }
  }

  lemma PrependNoMembers(p: Parsed<seq<Member>>)
    ensures PrependMembers([], p) == p
  {
    if p.Ok? {
      assert [] + p.value == p.value;
    }
  }

  method CopyOne(b: array<char>, i: nat, c: char)
    requires i < b.Length
    modifies b
    ensures b[..i + 1] == old(b[..i]) + [c]
  {
    b[i] := c;
  }

  function WordAt(r: string): int {
    if "null" <= r then 1 else if "false" <= r then 2 else if "true" <= r then 3 else 0
  }

  /** The text between the quotes, for both passes. */
  lemma QuotedBody(content: string, rest: string, start: nat, end: nat)
    requires 1 <= start <= end < |content| && rest == content[start - 1..]
    requires rest[0] == '"' && ScanEnd(rest[1..]).Some? && end == start + ScanEnd(rest[1..]).value
    ensures content[end] == '"' && content[start..end] == rest[1..1 + ScanEnd(rest[1..]).value]
    ensures content[end + 1..] == rest[2 + ScanEnd(rest[1..]).value..]
    ensures Aligned(content[start..end], false)
    ensures Skips(content[start..end], false) == ScanCount(content[start..]) <= end - start
  {
    var n := ScanEnd(rest[1..]).value;
    assert content[start..] == rest[1..];
    assert content[start..end] == rest[1..][..n];
    ScanIsAligned(rest[1..]);
    RoomIsLength(content[start..end], false);
  }

  lemma {:induction false} CStrTerminated(t: string)
    ensures CStr(t + [NUL]) == CStr(t)
  {
    if t != "" {
      CStrTerminated(t[1..]);
      assert (t + [NUL])[1..] == t[1..] + [NUL];
    }
  }

  lemma NumberToken(r: string, i: nat)
    requires Terminated(r) && i <= 63 && i <= |r| && (i == 63 || (i < |r| ==> !NumberChar(r[i])))
    ensures Strtod(r[..i]) == Strtod(if |r| <= NUMBER_BUFFER then r else r[..NUMBER_BUFFER])
    ensures Strtod(r[..i]).Some? ==> Strtod(r[..i]).value.1 < |r|
  {
    var t := if |r| <= NUMBER_BUFFER then r else r[..NUMBER_BUFFER];
    assert t[..i] == r[..i];
    StrtodCut(t, i);
    if Strtod(r[..i]).Some? {
      StrtodLast(r[..i]);
    }
  }

  // ----- the entry point

  /**
   `cJSON_ParseWithOpts`: the tree of the text, or nothing if the text has none or a block was refused.
   Success leaves exactly the blocks of the tree allocated, failure at any point leaves none.
   */
  method ParseWithOpts(text: string, requireEnd: bool, hooks: Allocator) returns (r: Option<Item>, end: nat)
    modifies hooks
    ensures r.Some? <==> Parse(text, requireEnd).Ok? && hooks.refusals == old(hooks.refusals)
    ensures r.Some? ==> WellFormed(r.value.body) && Tree(r.value.body) == Parse(text, requireEnd).value
    ensures r.Some? ==> Height(Tree(r.value.body)) <= NESTING_LIMIT
    ensures r.Some? ==> end <= |text| && (text + [NUL])[end..] == Parse(text, requireEnd).rest
    ensures hooks.live == old(hooks.live) + if r.Some? then ItemBlocks(r.value) else multiset{}
    ensures r.Some? ==> |ItemBlocks(r.value)| == 1 + Needed(Parse(text, requireEnd).value)
  {
    var content := text + [NUL];
    var parser := new Parser(content, hooks);
    var a := hooks.Allocate();
    if a.None? {
      return None, 0;
    }
    assert content[0..] == content;
    var ok, body := parser.ReadDocument(requireEnd, Parse(text, requireEnd));
    end := parser.offset;
    var item := Item(a.value, None, body);
    Nest(old(hooks.live), multiset{a.value}, NameBlocks(None), BodyBlocks(body));
    if ok {
      r := Some(item);
      BlocksOfItem(item);
    } else {
      hooks.DeleteOne(item, old(hooks.live));
      r := None;
    }
  }

  /** Parsing and deleting the result gives back every block, whatever was refused on the way. */
  method ParseAndDelete(text: string, requireEnd: bool, hooks: Allocator) returns (ok: bool)
    modifies hooks
    ensures ok <==> Parse(text, requireEnd).Ok? && hooks.refusals == old(hooks.refusals)
    ensures hooks.live == old(hooks.live)
  {
    var r, end := ParseWithOpts(text, requireEnd, hooks);
    ok := r.Some?;
    if ok {
      hooks.DeleteOne(r.value, old(hooks.live));
    }
  }
}
