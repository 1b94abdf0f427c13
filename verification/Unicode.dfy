/**
 The `\u` escapes of a JSON string: four hexadecimal digits, UTF-16 surrogate pairs, and the UTF-8
 encoding (RFC 3629, section 3) that `utf16_literal_to_utf8` writes.
 */
module Unicode {
  import opened CString

  // ----- hexadecimal

  function HexDigit(d: nat): char
    requires d < 16
  {
    if d < 10 then ('0' as int + d) as char else ('a' as int + d - 10) as char
  }

  function HexValue(c: char): Option<nat> {
    if '0' <= c <= '9' then Some(c as int - '0' as int)
    else if 'A' <= c <= 'F' then Some(10 + c as int - 'A' as int)
    else if 'a' <= c <= 'f' then Some(10 + c as int - 'a' as int)
    else None
  }

  /** `%04x`. */
  function Hex4(n: nat): (r: string)
    requires n < 0x10000
    ensures |r| == 4
  {
    [HexDigit(n / 16 / 16 / 16), HexDigit(n / 16 / 16 % 16), HexDigit(n / 16 % 16), HexDigit(n % 16)]
  }

  /** `parse_hex4`: the value of four digits, or 0 if one of them is no digit. */
  function ParseHex4(s: string): (r: nat)
    requires |s| == 4
    ensures r < 0x10000
  {
    var a, b, c, d := HexValue(s[0]), HexValue(s[1]), HexValue(s[2]), HexValue(s[3]);
    if a.Some? && b.Some? && c.Some? && d.Some?
    then 4096 * a.value + 256 * b.value + 16 * c.value + d.value
    else 0
  }

  lemma HexValueDigit(d: nat)
    requires d < 16
    ensures HexValue(HexDigit(d)) == Some(d)
    ensures HexDigit(d) != '"' && HexDigit(d) != '\\'
  {
  }

  lemma ParseHex4Hex4(n: nat)
    requires n < 0x10000
    ensures ParseHex4(Hex4(n)) == n
  {
    HexValueDigit(n / 16 / 16 / 16);
    HexValueDigit(n / 16 / 16 % 16);
    HexValueDigit(n / 16 % 16);
    HexValueDigit(n % 16);
  }

  /** The accumulate-and-shift loop. */
  method ParseHexDigits(s: string) returns (h: nat)
    requires |s| == 4
    ensures h == ParseHex4(s)
  {
    h := 0;
    var i := 0;
    while i < 4
      invariant 0 <= i <= 4
      invariant forall k :: 0 <= k < i ==> HexValue(s[k]).Some?
      invariant i == 0 ==> h == 0
      invariant i == 1 ==> h == 16 * HexValue(s[0]).value
      invariant i == 2 ==> h == 256 * HexValue(s[0]).value + 16 * HexValue(s[1]).value
      invariant i == 3 ==> h == 4096 * HexValue(s[0]).value + 256 * HexValue(s[1]).value + 16 * HexValue(s[2]).value
      invariant i == 4 ==> h == ParseHex4(s)
    {
      if '0' <= s[i] <= '9' {
        h := h + (s[i] as int - '0' as int);
      } else if 'A' <= s[i] <= 'F' {
        h := h + 10 + (s[i] as int - 'A' as int);
      } else if 'a' <= s[i] <= 'f' {
        h := h + 10 + (s[i] as int - 'a' as int);
      } else {
        assert HexValue(s[i]).None?;
        return 0;
      }
      if i < 3 {
        h := h * 16;
      }
      i := i + 1;
    }
  }

  // ----- UTF-8

  predicate Scalar(c: nat) {
    c < 0xD800 || 0xE000 <= c <= 0x10FFFF
  }

  /** The 0xxxxxxx / 110xxxxx / 1110xxxx / 11110xxx forms. */
  function Utf8(c: nat): (r: string)
    requires c <= 0x10FFFF
    ensures 1 <= |r| <= 4
    ensures forall i :: 0 <= i < |r| ==> r[i] as int < 256
    ensures c != 0 ==> NUL !in r
  {
    if c < 0x80 then [c as char]
    else if c < 0x800 then [(0xC0 + c / 64) as char, (0x80 + c % 64) as char]
    else if c < 0x10000 then [(0xE0 + c / 64 / 64) as char, (0x80 + c / 64 % 64) as char, (0x80 + c % 64) as char]
    else [(0xF0 + c / 64 / 64 / 64) as char, (0x80 + c / 64 / 64 % 64) as char, (0x80 + c / 64 % 64) as char,
          (0x80 + c % 64) as char]
  }

  /** Decoding one character: the code point and what follows it. */
  function DecodeOne(s: string): (r: Option<(nat, string)>)
    ensures r.Some? ==> |r.value.1| < |s|
  {
    if s == "" then None
    else
      var b := s[0] as int;
      if b < 0x80 then Some((b, s[1..]))
      else if 0xC0 <= b < 0xE0 && |s| >= 2 && s[1] as int >= 0x80 then
        Some(((b - 0xC0) * 64 + (s[1] as int - 0x80), s[2..]))
      else if 0xE0 <= b < 0xF0 && |s| >= 3 && s[1] as int >= 0x80 && s[2] as int >= 0x80 then
        Some(((b - 0xE0) * 4096 + (s[1] as int - 0x80) * 64 + (s[2] as int - 0x80), s[3..]))
      else if 0xF0 <= b < 0xF8 && |s| >= 4 && s[1] as int >= 0x80 && s[2] as int >= 0x80 && s[3] as int >= 0x80 then
        Some(((b - 0xF0) * 262144 + (s[1] as int - 0x80) * 4096 + (s[2] as int - 0x80) * 64 + (s[3] as int - 0x80), s[4..]))
      else None
  }

  function Decode(s: string): Option<seq<nat>>
    decreases |s|
  {
    if s == "" then Some([])
    else
      var one := DecodeOne(s);
      if one.None? then None
      else
        var rest := Decode(one.value.1);
        if rest.None? then None else Some([one.value.0] + rest.value)
  }

  lemma DecodeOneUtf8(c: nat, rest: string)
    requires c <= 0x10FFFF
    ensures DecodeOne(Utf8(c) + rest) == Some((c, rest))
  {
    var u := Utf8(c);
    var s := u + rest;
    assert s[|u|..] == rest;
    if c < 0x80 {
    } else if c < 0x800 {
      assert s[0] == u[0] && s[1] == u[1];
    } else if c < 0x10000 {
      assert s[0] == u[0] && s[1] == u[1] && s[2] == u[2];
    } else {
      assert s[0] == u[0] && s[1] == u[1] && s[2] == u[2] && s[3] == u[3];
    }
  }

  lemma FirstBytes(a: string, b: string)
    requires a != "" && b != ""
    ensures a[0] < b[0] ==> Less(a, b)
    ensures a[0] == b[0] && Less(a[1..], b[1..]) ==> Less(a, b)
  {
  }

  /** Texts of equal length are in the order of the first byte in which they differ. */
  lemma {:induction false} ByteOrder(a: string, b: string, i: nat)
    requires i < |a| && i < |b| && a[i] < b[i] && forall j :: 0 <= j < i ==> a[j] == b[j]
    ensures Less(a, b)
    decreases i
  {
    if i > 0 {
      ByteOrder(a[1..], b[1..], i - 1);
    }
    FirstBytes(a, b);
  }

  /** The first byte says how many there are, and the others continue it. */
  predicate Character(u: string) {
    && 1 <= |u| <= 4 && (forall i :: 1 <= i < |u| ==> 0x80 <= u[i] as int < 0xC0)
    && var b := u[0] as int;
       if |u| == 1 then b < 0x80
       else if |u| == 2 then 0xC0 <= b < 0xE0
       else if |u| == 3 then 0xE0 <= b < 0xF0
       else 0xF0 <= b < 0xF8
  }

  /** What the bytes of one character spell. */
  function Bits(u: string): int {
    if |u| == 1 then u[0] as int
    else if |u| == 2 then (u[0] as int - 0xC0) * 64 + u[1] as int - 0x80
    else if |u| == 3 then (u[0] as int - 0xE0) * 4096 + (u[1] as int - 0x80) * 64 + u[2] as int - 0x80
    else if |u| == 4 then
      (u[0] as int - 0xF0) * 262144 + (u[1] as int - 0x80) * 4096 + (u[2] as int - 0x80) * 64 + u[3] as int - 0x80
    else 0
  }

  /** The bits of a character are those of its bytes, and its size decides how many there are. */
  lemma Utf8Bits(c: nat)
    requires c <= 0x10FFFF
    ensures var u := Utf8(c);
      && Character(u)
      && |u| == (if c < 0x80 then 1 else if c < 0x800 then 2 else if c < 0x10000 then 3 else 4)
      && c == Bits(u)
  {
  }

  lemma BitOrder(a: string, b: string)
    requires Character(a) && Character(b) && |a| <= |b| && Bits(a) < Bits(b)
    ensures Less(a, b)
  {
    ByteOrder(a, b, if a[0] != b[0] then 0 else if a[1] != b[1] then 1 else if a[2] != b[2] then 2 else 3);
  }

  /** Encoded characters are in the order of the characters (section 1 of RFC 3629). */
  lemma Utf8KeepsOrder(c: nat, d: nat)
    requires c < d <= 0x10FFFF
    ensures Less(Utf8(c), Utf8(d))
  {
    Utf8Bits(c);
    Utf8Bits(d);
    BitOrder(Utf8(c), Utf8(d));
  }

  function Utf8All(cs: seq<nat>): string
    requires forall i :: 0 <= i < |cs| ==> Scalar(cs[i])
  {
    if cs == [] then ""
    else
      assert Scalar(cs[0]);
      Utf8(cs[0]) + Utf8All(cs[1..])
  }

  /** UTF-8 text decodes uniquely. */
  lemma {:induction false} DecodeUtf8All(cs: seq<nat>)
    requires forall i :: 0 <= i < |cs| ==> Scalar(cs[i])
    ensures Decode(Utf8All(cs)) == Some(cs)
  {
    if cs != [] {
      DecodeOneUtf8(cs[0], Utf8All(cs[1..]));
      DecodeUtf8All(cs[1..]);
      assert [cs[0]] + cs[1..] == cs;
    }
  }

  // ----- \u literals

  /** A `\u` literal at the front of `b`: its UTF-8 bytes and the number of characters read. */
  function Utf16Literal(b: string): (r: Option<(string, nat)>)
    ensures r.Some? ==> r.value.1 == 6 || r.value.1 == 12
    ensures r.Some? ==> r.value.1 <= |b|
    ensures r.Some? ==> 1 <= |r.value.0| <= if r.value.1 == 6 then 3 else 4
  {
    if |b| < 6 then None
    else
      var first := ParseHex4(b[2..6]);
      if 0xDC00 <= first <= 0xDFFF then None
      else if 0xD800 <= first <= 0xDBFF then
        if |b| < 12 || b[6] != '\\' || b[7] != 'u' then None
        else
          var second := ParseHex4(b[8..12]);
          if second < 0xDC00 || second > 0xDFFF then None
          else Some((Utf8(0x10000 + (first % 1024) * 1024 + second % 1024), 12))
      else Some((Utf8(first), 6))
  }

  /** How a scalar value is written with `\u`. */
  function EscapeScalar(c: nat): string
    requires Scalar(c)
  {
    if c < 0x10000 then "\\u" + Hex4(c)
    else "\\u" + Hex4(0xD800 + (c - 0x10000) / 1024) + "\\u" + Hex4(0xDC00 + (c - 0x10000) % 1024)
  }

  lemma SurrogateHalves(c: nat) returns (hi: nat, lo: nat)
    requires 0x10000 <= c <= 0x10FFFF
    ensures hi < 1024 && lo < 1024
    ensures hi == (c - 0x10000) / 1024 && lo == (c - 0x10000) % 1024
    ensures c == 0x10000 + ((0xD800 + hi) % 1024) * 1024 + (0xDC00 + lo) % 1024
  {
    hi, lo := (c - 0x10000) / 1024, (c - 0x10000) % 1024;
    assert (0xD800 + hi) % 1024 == hi;
    assert (0xDC00 + lo) % 1024 == lo;
  }

  /** The literal reader turns every written scalar value into its UTF-8 bytes. */
  lemma Utf16LiteralScalar(c: nat, rest: string)
    requires Scalar(c)
    ensures Utf16Literal(EscapeScalar(c) + rest) == Some((Utf8(c), |EscapeScalar(c)|))
  {
    if c < 0x10000 {
      SingleRead(c, rest);
    } else {
      var hi, lo := SurrogateHalves(c);
      PairRead(hi, lo, rest);
      assert EscapeScalar(c) == "\\u" + Hex4(0xD800 + hi) + "\\u" + Hex4(0xDC00 + lo);
    }
  }

  lemma SingleRead(c: nat, rest: string)
    requires Scalar(c) && c < 0x10000
    ensures Utf16Literal("\\u" + Hex4(c) + rest) == Some((Utf8(c), 6))
  {
    ParseHex4Hex4(c);
    assert ("\\u" + Hex4(c) + rest)[2..6] == Hex4(c);
  }

  lemma PairRead(hi: nat, lo: nat, rest: string)
    requires hi < 1024 && lo < 1024
    ensures var b := "\\u" + Hex4(0xD800 + hi) + "\\u" + Hex4(0xDC00 + lo) + rest;
            Utf16Literal(b) == Some((Utf8(0x10000 + ((0xD800 + hi) % 1024) * 1024 + (0xDC00 + lo) % 1024), 12))
  {
    var b := "\\u" + Hex4(0xD800 + hi) + "\\u" + Hex4(0xDC00 + lo) + rest;
    ParseHex4Hex4(0xD800 + hi);
    ParseHex4Hex4(0xDC00 + lo);
    assert b[2..6] == Hex4(0xD800 + hi);
    assert b[6] == '\\' && b[7] == 'u';
    assert b[8..12] == Hex4(0xDC00 + lo);
  }

  // ----- the bit operations of the code are this arithmetic

  lemma ContinuationByte(c: bv32)
    ensures ((c | 0x80) & 0xBF) == 0x80 + (c % 64)
    ensures c >> 6 == c / 64
  {
  }

  lemma LeadByte(c: bv32, mark: bv32)
    requires (mark == 0xC0 && c < 0x20) || (mark == 0xE0 && c < 0x10) || (mark == 0xF0 && c < 0x08)
    ensures ((c | mark) & 0xFF) == mark + c
  {
  }

  lemma SurrogatePair(first: bv32, second: bv32)
    ensures (((first & 0x3FF) << 10) | (second & 0x3FF)) == (first % 1024) * 1024 + second % 1024
  {
  }
}
