/**
 `parse_string`: a scan pass that looks for the closing quote and counts escapes, and an unescape pass that
 writes into a buffer sized by that count. A malformed `\u` literal can leave the two passes at odds about
 which backslash starts an escape; the buffer is never overrun all the same.
 */
module UnescapePass {
  import opened CString
  import opened Unicode
  import opened JsonText

  // ----- what the scan pass counts

  /** How many escapes the scan pass sees in `b`; `inside` says that `b[0]` is the second character of one. */
  function Skips(b: string, inside: bool): nat {
    if b == "" then 0
    else if inside then Skips(b[1..], false)
    else if b[0] == '\\' then 1 + Skips(b[1..], true)
    else Skips(b[1..], false)
  }

  /** The scan pass does not end within an escape. */
  predicate Aligned(b: string, inside: bool) {
    if b == "" then !inside else Aligned(b[1..], !inside && b[0] == '\\')
  }

  /** The room the scan pass grants for `b`. */
  function Room(b: string, inside: bool): (r: nat)
  {
    if b == "" then 0
    else if !inside && b[0] == '\\' then Room(b[1..], true)
    else 1 + Room(b[1..], false)
  }

  lemma {:induction false} RoomIsLength(b: string, inside: bool)
    ensures Room(b, inside) + Skips(b, inside) == |b|
  {
    if b != "" {
      RoomIsLength(b[1..], !inside && b[0] == '\\');
    }
  }

  /** Escapes seen up to the closing quote, counted as the scan goes. */
  function ScanCount(r: string): nat
  {
    if r == "" || r[0] == '"' then 0
    else if r[0] == '\\' then 1 + (if |r| == 1 then 0 else ScanCount(r[2..]))
    else ScanCount(r[1..])
  }

  lemma {:induction false} ScanIsAligned(r: string)
    requires ScanEnd(r).Some?
    ensures Skips(r[..ScanEnd(r).value], false) == ScanCount(r)
    ensures Aligned(r[..ScanEnd(r).value], false)
  {
    var n := ScanEnd(r).value;
    if r[0] == '"' {
    } else if r[0] == '\\' {
      ScanIsAligned(r[2..]);
      assert r[..n][1..][1..] == r[2..][..n - 2];
    } else {
      ScanIsAligned(r[1..]);
      assert r[..n][1..] == r[1..][..n - 1];
    }
  }

  // ----- what one round of the unescape pass reads and writes

  function Drop(b: string, k: nat): string {
    if k <= |b| then b[k..] else ""
  }

  /** The text written and the number of characters read. */
  function Round(b: string): (r: Option<(string, nat)>)
    requires b != ""
    ensures r.Some? ==> r.value.1 > 0
  {
    if b[0] != '\\' then Some(([b[0]], 1))
    else
      var c := if |b| > 1 then b[1] else '"';
      if c == 'u' then Utf16Literal(b)
      else
        var x := SimpleEscape(c);
        if x.None? then None else Some(([x.value], 2))
  }

  function Prepend(t: string, u: Option<string>): Option<string> {
    if u.None? then None else Some(t + u.value)
  }

  lemma UnescapeRound(b: string)
    requires b != ""
    ensures Unescape(b) == if Round(b).None? then None
                           else Prepend(Round(b).value.0, Unescape(Drop(b, Round(b).value.1)))
  {
  }

  lemma RoomOne(b: string, inside: bool)
    requires b != "" && (b[0] != '\\' || inside) && Aligned(b, inside)
    ensures Room(b, inside) == 1 + Room(b[1..], false) && Aligned(b[1..], false)
  {
  }

  /** Two characters hold at most one escape of the scan pass, wherever they start. */
  lemma RoomTwo(b: string, inside: bool) returns (after: bool)
    requires |b| >= 2 && Aligned(b, inside)
    ensures Room(b, inside) >= 1 + Room(b[2..], after) && Aligned(b[2..], after)
  {
    var middle := !inside && b[0] == '\\';
    after := !middle && b[1] == '\\';
    assert b[1..][1..] == b[2..];
    assert Aligned(b[1..], middle);
    assert Aligned(b[2..], after);
  }

  lemma {:induction false} RoomPairs(b: string, inside: bool, k: nat) returns (after: bool)
    requires |b| >= 2 * k && Aligned(b, inside)
    ensures Room(b, inside) >= k + Room(b[2 * k..], after) && Aligned(b[2 * k..], after)
  {
    if k == 0 {
      after := inside;
      assert b[0..] == b;
    } else {
      var middle := RoomTwo(b, inside);
      after := RoomPairs(b[2..], middle, k - 1);
      assert b[2..][2 * (k - 1)..] == b[2 * k..];
    }
  }

  /** What a round writes fits in the room it uses up, whether or not the passes agree. */
  lemma RoundFits(b: string, inside: bool) returns (after: bool)
    requires b != "" && Aligned(b, inside) && Round(b).Some?
    ensures |Round(b).value.0| + Room(Drop(b, Round(b).value.1), after) <= Room(b, inside)
    ensures Aligned(Drop(b, Round(b).value.1), after)
  {
    var (t, k) := Round(b).value;
    if b[0] != '\\' {
      RoomOne(b, inside);
      after := false;
    } else if |b| == 1 {
      assert b[1..] == "";
      after := false;
    } else if k == 2 {
      after := RoomTwo(b, inside);
    } else {
      after := RoomPairs(b, inside, k / 2);
    }
  }

  /** The unescaped string is no longer than the scan pass allows. */
  lemma {:induction false} UnescapeFits(b: string, inside: bool)
    requires Aligned(b, inside) && Unescape(b).Some?
    ensures |Unescape(b).value| <= Room(b, inside)
    decreases |b|
  {
    if b != "" {
      UnescapeRound(b);
      var after := RoundFits(b, inside);
      UnescapeFits(Drop(b, Round(b).value.1), after);
    }
  }

  /** A round keeps the text to come and the room it needs. */
  lemma RoundStep(b: string, inside: bool, done: string) returns (after: bool)
    requires b != "" && Aligned(b, inside)
    ensures Round(b).None? ==> Unescape(b).None?
    ensures Round(b).Some? ==>
      var (t, k) := Round(b).value;
      && Prepend(done, Unescape(b)) == Prepend(done + t, Unescape(Drop(b, k)))
      && |t| + Room(Drop(b, k), after) <= Room(b, inside) && Aligned(Drop(b, k), after)
  {
    UnescapeRound(b);
    after := inside;
    if Round(b).Some? {
      after := RoundFits(b, inside);
      PrependTwice(done, Round(b).value.0, Unescape(Drop(b, Round(b).value.1)));
    }
  }

  // ----- the loops

  /** Where the scan pass stops, and the escapes it counts, by position. */
  function CloseAt(content: string, e: nat): Option<nat>
    requires e <= |content|
    decreases |content| - e
  {
    if e == |content| then None
    else if content[e] == '"' then Some(e)
    else if content[e] != '\\' then CloseAt(content, e + 1)
    else if e + 1 == |content| then None
    else CloseAt(content, e + 2)
  }

  function CountAt(content: string, e: nat): nat
    requires e <= |content|
    decreases |content| - e
  {
    if e == |content| || content[e] == '"' then 0
    else if content[e] != '\\' then CountAt(content, e + 1)
    else if e + 1 == |content| then 1
    else 1 + CountAt(content, e + 2)
  }

  lemma {:induction false} ScanAt(content: string, e: nat)
    requires e <= |content|
    ensures CountAt(content, e) == ScanCount(content[e..])
    ensures CloseAt(content, e).Some? <==> ScanEnd(content[e..]).Some?
    ensures CloseAt(content, e).Some? ==> CloseAt(content, e).value == e + ScanEnd(content[e..]).value
    decreases |content| - e
  {
    if e < |content| && content[e] != '"' {
      if content[e] != '\\' {
        assert content[e..][1..] == content[e + 1..];
        ScanAt(content, e + 1);
      } else if e + 1 < |content| {
        assert content[e..][2..] == content[e + 2..];
        ScanAt(content, e + 2);
      }
    }
  }

  /** The scan pass over `content` from `start` on. */
  method Scan(content: string, start: nat) returns (end: nat, skipped: nat, ok: bool)
    requires start <= |content|
    ensures ok <==> ScanEnd(content[start..]).Some?
    ensures ok ==> start <= end < |content| && end == start + ScanEnd(content[start..]).value
    ensures ok ==> skipped == ScanCount(content[start..])
  {
    end, skipped, ok := start, 0, false;
    ScanAt(content, start);
    while end < |content| && content[end] != '"'
      invariant start <= end <= |content|
      invariant CloseAt(content, end) == CloseAt(content, start)
      invariant skipped + CountAt(content, end) == CountAt(content, start)
    {
      if content[end] == '\\' {
        if end + 1 >= |content| {
          return;
        }
        skipped := skipped + 1;
        end := end + 1;
      }
      end := end + 1;
    }
    ok := end < |content|;
  }

  /** The encoding loop: continuation bytes from the last one down, then the first byte. */
  method EncodeUtf8(code: nat, output: array<char>, at: nat) returns (next: nat)
    requires code <= 0x10FFFF && at + |Utf8(code)| <= output.Length
    modifies output
    ensures next == at + |Utf8(code)|
    ensures output[..next] == old(output[..at]) + Utf8(code)
  {
    var length := if code < 0x80 then 1 else if code < 0x800 then 2 else if code < 0x10000 then 3 else 4;
    var mark := if length == 2 then 0xC0 else if length == 3 then 0xE0 else 0xF0;
    var left := code;
    var i := length - 1;
    ghost var r := Utf8(code);
    while i > 0
      invariant 0 <= i < length
      invariant i == length - 1 ==> left == code
      invariant i == length - 2 ==> left == code / 64
      invariant i == length - 3 ==> left == code / 64 / 64
      invariant i == length - 4 ==> left == code / 64 / 64 / 64
      invariant output[..at] == old(output[..at])
      invariant forall k :: i < k < length ==> output[at + k] == r[k]
    {
      output[at + i] := (0x80 + left % 64) as char;
      left := left / 64;
      i := i - 1;
    }
    assert (if length > 1 then mark + left else left) == r[0] as int;
    output[at] := (if length > 1 then mark + left else left) as char;
    next := at + length;
    AppendedSlice(output[..], old(output[..at]), r);
    assert output[..][..next] == output[..next];
  }

  lemma AppendedSlice(s: string, a: string, r: string)
    requires |a| + |r| <= |s| && s[..|a|] == a
    requires forall k :: 0 <= k < |r| ==> s[|a| + k] == r[k]
    ensures s[..|a| + |r|] == a + r
  {
  }

  lemma SubSlice(s: string, i: nat, end: nat, a: nat, b: nat)
    requires i <= end <= |s| && a <= b <= end - i
    ensures s[i..end][a..b] == s[i + a..i + b]
  {
    var t, u := s[i..end][a..b], s[i + a..i + b];
    assert forall k :: 0 <= k < |t| ==> t[k] == u[k];
  }

  /** The code point of a literal and the number of characters it takes, or 0. */
  method ReadLiteral(content: string, i: nat, end: nat) returns (length: nat, code: nat)
    requires i <= end <= |content|
    ensures code <= 0x10FFFF
    ensures Utf16Literal(content[i..end]) == if length == 0 then None else Some((Utf8(code), length))
  {
    length, code := 0, 0;
    if end - i < 6 { return; }
    ghost var b := content[i..end];
    SubSlice(content, i, end, 2, 6);
    var first := ParseHexDigits(content[i + 2..i + 6]);
    if 0xDC00 <= first <= 0xDFFF { return; }
    if 0xD800 <= first <= 0xDBFF {
      if end - (i + 6) < 6 { return; }
      assert b[6] == content[i + 6] && b[7] == content[i + 7];
      if content[i + 6] != '\\' || content[i + 7] != 'u' { return; }
      SubSlice(content, i, end, 8, 12);
      var second := ParseHexDigits(content[i + 8..i + 12]);
      if second < 0xDC00 || second > 0xDFFF { return; }
      code := 0x10000 + (first % 1024) * 1024 + second % 1024;
      length := 12;
    } else {
      code, length := first, 6;
    }
  }

  /** `utf16_literal_to_utf8`: the number of characters read, or 0. */
  method Utf16LiteralToUtf8(content: string, i: nat, end: nat, output: array<char>, at: nat)
    returns (length: nat, next: nat)
    requires i <= end <= |content| && at <= output.Length
    requires var u := Utf16Literal(content[i..end]); u.Some? ==> at + |u.value.0| <= output.Length
    modifies output
    ensures Utf16Literal(content[i..end]).None? ==> length == 0
    ensures Utf16Literal(content[i..end]).Some? ==>
      && length == Utf16Literal(content[i..end]).value.1
      && next == at + |Utf16Literal(content[i..end]).value.0| <= output.Length
      && output[..next] == old(output[..at]) + Utf16Literal(content[i..end]).value.0
  {
    var code;
    next := at;
    length, code := ReadLiteral(content, i, end);
    if length > 0 {
      next := EncodeUtf8(code, output, at);
    }
  }

  /** One round of the loop. */
  method UnescapeOnce(content: string, i: nat, end: nat, output: array<char>, at: nat)
    returns (ok: bool, length: nat, next: nat)
    requires i < end < |content| && content[end] == '"' && at <= output.Length
    requires var r := Round(content[i..end]); r.Some? ==> at + |r.value.0| <= output.Length
    modifies output
    ensures ok <==> Round(content[i..end]).Some?
    ensures ok ==>
      && length == Round(content[i..end]).value.1
      && next == at + |Round(content[i..end]).value.0| <= output.Length
      && output[..next] == old(output[..at]) + Round(content[i..end]).value.0
  {
    ghost var b := content[i..end];
    length, next := 2, at;
    assert b[0] == content[i] && content[i + 1] == if |b| > 1 then b[1] else '"';
    var c := content[i];
    if c == '\\' {
      if content[i + 1] == 'u' {
        length, next := Utf16LiteralToUtf8(content, i, end, output, at);
        ok := length > 0;
        return;
      }
      var x := SimpleEscape(content[i + 1]);
      if x.None? { ok := false; return; }
      c := x.value;
    } else {
      length := 1;
    }
    output[at] := c;
    next := at + 1;
    ok := true;
    assert output[..next] == output[..at] + [c];
  }

  /** The unescape pass. Every write is inside a buffer of the size the scan pass asks for. */
  method UnescapeInto(content: string, start: nat, end: nat, output: array<char>) returns (ok: bool, size: nat, i: nat)
    requires start <= end < |content| && content[end] == '"'
    requires Aligned(content[start..end], false)
    requires output.Length == end - start + 1 - Skips(content[start..end], false) + 1
    modifies output
    ensures ok <==> Unescape(content[start..end]).Some?
    ensures ok ==> size < output.Length && output[..size + 1] == Unescape(content[start..end]).value + [NUL]
    ensures start <= i <= end + 1
  {
    RoomIsLength(content[start..end], false);
    ok, size, i := UnescapeLoop(content, start, end, output, Unescape(content[start..end]));
    if ok {
      TerminateAt(output, size);
    }
  }

  method TerminateAt(output: array<char>, size: nat)
    requires size < output.Length
    modifies output
    ensures output[..size + 1] == old(output[..size]) + [NUL]
  {
    output[size] := NUL;
  }

  method UnescapeLoop(content: string, start: nat, end: nat, output: array<char>, ghost goal: Option<string>)
    returns (ok: bool, size: nat, i: nat)
    requires start <= end < |content| && content[end] == '"'
    requires Aligned(content[start..end], false) && goal == Unescape(content[start..end])
    requires Room(content[start..end], false) + 2 <= output.Length
    modifies output
    ensures ok <==> goal.Some?
    ensures ok ==> size + 2 <= output.Length && output[..size] == goal.value
    ensures start <= i <= end + 1
  {
    ghost var inside := false;
    i, size, ok := start, 0, true;
    PrependNothing(output[..0], goal);
    while ok && i < end
      invariant start <= i <= end + 1
      invariant ok ==> Aligned(RestOf(content, i, end), inside)
      invariant ok ==> size + Room(RestOf(content, i, end), inside) + 2 <= output.Length
      invariant ok ==> goal == Prepend(output[..size], Unescape(RestOf(content, i, end)))
      invariant !ok ==> goal.None?
      decreases ok, end - i
    {
      ok, i, size, inside := UnescapeStep(content, i, end, output, size, inside, goal);
    }
    assert ok ==> output[..size] + "" == output[..size];
  }

  /** One round, and what it leaves to do. */
  method UnescapeStep(content: string, i: nat, end: nat, output: array<char>, at: nat, ghost inside: bool,
                      ghost goal: Option<string>)
    returns (ok: bool, next: nat, size: nat, ghost after: bool)
    requires i < end < |content| && content[end] == '"'
    requires Aligned(content[i..end], inside) && at + Room(content[i..end], inside) + 2 <= output.Length
    requires goal == Prepend(output[..at], Unescape(content[i..end]))
    modifies output
    ensures i <= next <= end + 1 && (ok ==> i < next)
    ensures ok ==> Aligned(RestOf(content, next, end), after)
    ensures ok ==> size + Room(RestOf(content, next, end), after) + 2 <= output.Length
    ensures ok ==> goal == Prepend(output[..size], Unescape(RestOf(content, next, end)))
    ensures !ok ==> goal.None?
  {
    ghost var b, done := content[i..end], output[..at];
    after := RoundStep(b, inside, done);
    var length;
    ok, length, size := UnescapeOnce(content, i, end, output, at);
    next := i;
    if ok {
      assert output[..size] == done + Round(b).value.0;
      DropRest(content, i, end, length);
      assert RestOf(content, i, end) == b;
      next := i + length;
    }
  }

  /** What is left between the read position and the closing quote, which one round may pass. */
  function RestOf(content: string, i: nat, end: nat): string
    requires end <= |content|
  {
    if i <= end then content[i..end] else ""
  }

  lemma DropRest(content: string, i: nat, end: nat, k: nat)
    requires i <= end <= |content|
    ensures Drop(RestOf(content, i, end), k) == RestOf(content, i + k, end)
  {
  }

  lemma PrependNothing(a: string, u: Option<string>)
    requires a == ""
    ensures Prepend(a, u) == u
  {
    if u.Some? {
      assert a + u.value == u.value;
    }
  }

  lemma PrependTwice(a: string, b: string, u: Option<string>)
    ensures Prepend(a, Prepend(b, u)) == Prepend(a + b, u)
  {
    if u.Some? {
      assert a + (b + u.value) == a + b + u.value;
    }
  }
}
