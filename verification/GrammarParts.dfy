/**
 The parts of the grammar: white space, string literals and numbers are read exactly as it says.
 */
module GrammarParts {
  import opened CString
  import opened Json
  import opened Pointer
  import opened Unicode
  import opened JsonText
  import opened Grammar

  // ----- white space

  lemma {:induction false} DropWhite(w: string, t: string)
    requires White(w) && t != "" && t[0] as int > 32
    ensures DropSpace(w + t) == t
  {
    if w == "" {
      assert w + t == t;
    } else {
      DropWhite(w[1..], t);
      assert (w + t)[1..] == w[1..] + t;
    }
  }

  /** White space is skipped, whatever bytes up to 32 it is made of. */
  lemma {:induction false} SkipWhite(w: string, t: string)
    requires White(w) && t != "" && t[0] as int > 32
    ensures Skip(w + t) == t
  {
    DropWhite(w, t);
  }

  lemma {:induction false} DropSplits(r: string) returns (w: string)
    ensures White(w) && r == w + DropSpace(r)
    ensures DropSpace(r) != "" ==> DropSpace(r)[0] as int > 32
  {
    if r != "" && Space(r[0]) {
      w := DropSplits(r[1..]);
      w := [r[0]] + w;
      assert r == [r[0]] + r[1..];
    } else {
      w := "";
    }
  }

  /** Nothing else is, unless the text ends in white space. */
  lemma {:induction false} SkipSplits(r: string) returns (w: string)
    ensures White(w)
    ensures Skip(r) != "" && Skip(r)[0] as int > 32 ==> r == w + Skip(r)
  {
    w := DropSplits(r);
    if DropSpace(r) == "" && r != "" {
      assert w + "" == w;
      assert Skip(r)[0] == r[|r| - 1] == w[|w| - 1];
    }
  }

  // ----- string literals: the scan pass

  lemma {:induction false} ScanAtom(a: string, t: string)
    requires Atom(a)
    ensures ScanEnd(a + t) == if ScanEnd(t).None? then None else Some(|a| + ScanEnd(t).value)
  {
    assert (a + t)[|a|..] == t && (a + t)[0] == a[0];
  }

  lemma {:induction false} ScanReads(atoms: seq<string>, rest: string)
    requires forall a :: a in atoms ==> Atom(a)
    ensures ScanEnd(Joined(atoms) + ("\"" + rest)) == Some(|Joined(atoms)|)
  {
    if atoms == [] {
      assert Joined(atoms) + ("\"" + rest) == "\"" + rest;
    } else {
      assert forall a :: a in atoms[1..] ==> a in atoms;
      ScanReads(atoms[1..], rest);
      ScanAtom(atoms[0], Joined(atoms[1..]) + ("\"" + rest));
      Associative(atoms[0], Joined(atoms[1..]), "\"" + rest);
    }
  }

  lemma {:induction false} ScanDerived(r: string) returns (atoms: seq<string>)
    requires ScanEnd(r).Some?
    ensures forall a :: a in atoms ==> Atom(a)
    ensures Joined(atoms) == r[..ScanEnd(r).value]
    decreases |r|
  {
    if r[0] == '"' {
      atoms := [];
    } else {
      var k := if r[0] == '\\' then 2 else 1;
      var more := ScanDerived(r[k..]);
      atoms := [r[..k]] + more;
      assert atoms[1..] == more;
      assert r[..k] + r[k..][..ScanEnd(r[k..]).value] == r[..k + ScanEnd(r[k..]).value];
    }
  }

  // ----- string literals: the unescape pass

  lemma {:induction false} TailPieces(ps: seq<Piece>)
    requires ps != [] && LegalPieces(ps)
    ensures LegalPiece(ps[0]) && LegalPieces(ps[1..]) && (ps[0].Stray? ==> ps[1..] == [])
  {
    assert forall i :: 0 <= i < |ps| - 1 ==> ps[1..][i] == ps[i + 1];
  }

  lemma {:induction false} ConsPieces(p: Piece, ps: seq<Piece>)
    requires LegalPiece(p) && LegalPieces(ps) && (p.Stray? ==> ps == [])
    ensures LegalPieces([p] + ps)
    ensures PiecesText([p] + ps) == PieceText(p) + PiecesText(ps)
    ensures PiecesValue([p] + ps) == PieceValue(p) + PiecesValue(ps)
  {
    assert ([p] + ps)[1..] == ps;
  }

  lemma {:induction false} PairCode(first: nat, second: nat)
    requires 0xD800 <= first <= 0xDBFF && 0xDC00 <= second <= 0xDFFF
    ensures 0x10000 + (first % 1024) * 1024 + second % 1024 == 0x10000 + 1024 * (first - 0xD800) + (second - 0xDC00)
  {
    assert first % 1024 == first - 0xD800;
    assert second % 1024 == second - 0xDC00;
  }

  /** A code unit outside the surrogates stands for itself. */
  lemma {:induction false} UnitRead(code: string, t: string)
    requires LegalPiece(Unit(code))
    ensures Utf16Literal("\\u" + code + t) == Some((Utf8(ParseHex4(code)), 6))
  {
    assert ("\\u" + code + t)[2..6] == code;
  }

  /** A high and a low surrogate stand for one character. */
  lemma {:induction false} PairUnitsRead(high: string, low: string, t: string)
    requires LegalPiece(Pair(high, low))
    ensures Utf16Literal("\\u" + high + ("\\u" + low) + t) == Some((PieceValue(Pair(high, low)), 12))
  {
    var b := "\\u" + high + ("\\u" + low) + t;
    assert b[2..6] == high && b[8..12] == low && b[6] == '\\' && b[7] == 'u';
    PairCode(ParseHex4(high), ParseHex4(low));
  }

  /** One round of the pass reads one piece. */
  lemma {:induction false} PieceRead(p: Piece, t: string)
    requires LegalPiece(p) && (p.Stray? ==> t == "") && Unescape(t).Some?
    ensures Unescape(PieceText(p) + t) == Some(PieceValue(p) + Unescape(t).value)
  {
    var b := PieceText(p) + t;
    assert b[|PieceText(p)|..] == t && b[0] == PieceText(p)[0];
    match p
    case Plain(_) =>
    case Short(letter) => assert b[1] == letter;
    case Unit(code) =>
      UnitRead(code, t);
      assert b[1] == 'u';
    case Pair(high, low) =>
      PairUnitsRead(high, low, t);
      assert b[1] == 'u';
    case Stray => StrayRead(b);
  }

  lemma {:induction false} StrayRead(b: string)
    requires b == "\\"
    ensures Unescape(b) == Some("\"")
  {
    assert b[0] == '\\' && |b| == 1;
    assert SimpleEscape('"') == Some('"') && Unescape("") == Some("");
    assert ['"'] + "" == "\"";
  }

  lemma {:induction false} PiecesRead(ps: seq<Piece>)
    requires LegalPieces(ps)
    ensures Unescape(PiecesText(ps)) == Some(PiecesValue(ps))
  {
    if ps != [] {
      TailPieces(ps);
      PiecesRead(ps[1..]);
      PieceRead(ps[0], PiecesText(ps[1..]));
    }
  }

  /** Which piece is in front. */
  function FirstPiece(b: string): Piece
    requires b != ""
  {
    if b[0] != '\\' then Plain(b[0])
    else if |b| == 1 then Stray
    else if b[1] != 'u' then Short(b[1])
    else if |b| < 6 then Unit("")
    else if 0xD800 <= ParseHex4(b[2..6]) <= 0xDBFF && |b| >= 12 then Pair(b[2..6], b[8..12])
    else Unit(b[2..6])
  }

  lemma {:induction false} UnitFirst(b: string)
    requires |b| > 1 && b[0] == '\\' && b[1] == 'u' && Utf16Literal(b).Some?
    ensures var p := FirstPiece(b);
      && LegalPiece(p) && !p.Stray? && Utf16Literal(b) == Some((PieceValue(p), |PieceText(p)|)) && PieceText(p) <= b
  {
    var p := FirstPiece(b);
    if p.Pair? {
      PairCode(ParseHex4(b[2..6]), ParseHex4(b[8..12]));
      assert b[..12] == "\\u" + b[2..6] + ("\\u" + b[8..12]);
    } else {
      assert b[..6] == "\\u" + b[2..6];
    }
  }

  lemma {:induction false} UnescapeUnit(b: string)
    requires |b| > 1 && b[0] == '\\' && b[1] == 'u' && Unescape(b).Some?
    ensures Utf16Literal(b).Some?
    ensures var u := Utf16Literal(b).value; Unescape(b[u.1..]).Some? && Unescape(b).value == u.0 + Unescape(b[u.1..]).value
  {
  }

  lemma {:induction false} FirstPieceIs(b: string)
    requires b != "" && Unescape(b).Some?
    ensures var p := FirstPiece(b); var k := |PieceText(p)|;
      && LegalPiece(p) && k <= |b| && b[..k] == PieceText(p) && (p.Stray? ==> b[k..] == "")
      && Unescape(b[k..]).Some? && Unescape(b).value == PieceValue(p) + Unescape(b[k..]).value
  {
    if b[0] == '\\' && |b| > 1 && b[1] == 'u' {
      UnescapeUnit(b);
      UnitFirst(b);
    } else if b[0] == '\\' && |b| > 1 {
      assert b[..2] == "\\" + [b[1]];
    } else if |b| == 1 && b[0] == '\\' {
      assert b == "\\";
      StrayRead(b);
    }
  }

  lemma {:induction false} PiecesDerived(b: string) returns (ps: seq<Piece>)
    requires Unescape(b).Some?
    ensures LegalPieces(ps) && PiecesText(ps) == b && PiecesValue(ps) == Unescape(b).value
    decreases |b|
  {
    if b == "" {
      ps := [];
    } else {
      FirstPieceIs(b);
      var p := FirstPiece(b);
      var k := |PieceText(p)|;
      var more := PiecesDerived(b[k..]);
      NoPieces(more, b[k..]);
      ps := PutPiece(b, p, k, more, Unescape(b[k..]).value);
    }
  }

  lemma {:induction false} NoPieces(ps: seq<Piece>, t: string)
    requires PiecesText(ps) == t
    ensures t == "" ==> ps == []
  {
    if ps != [] {
      assert |PieceText(ps[0])| > 0;
    }
  }

  lemma {:induction false} PutPiece(b: string, p: Piece, k: nat, more: seq<Piece>, v: string) returns (ps: seq<Piece>)
    requires k <= |b| && LegalPiece(p) && b[..k] == PieceText(p) && (p.Stray? ==> more == [])
    requires LegalPieces(more) && PiecesText(more) == b[k..] && PiecesValue(more) == v
    ensures LegalPieces(ps) && PiecesText(ps) == b && PiecesValue(ps) == PieceValue(p) + v
  {
    ConsPieces(p, more);
    ps := [p] + more;
    assert b == b[..k] + b[k..];
  }

  // ----- string literals as a whole

  /** The value of a literal ends at the first NUL. */
  lemma {:induction false} CStrIs(s: string)
    ensures CStr(s) <= s && NulFree(CStr(s))
    ensures |CStr(s)| < |s| ==> s[|CStr(s)|] == NUL
  {
    if s != "" && s[0] != NUL {
      CStrIs(s[1..]);
    }
  }

  lemma {:induction false} StringIs(e: string, s: string, rest: string)
    requires ScanEnd(e + ("\"" + rest)) == Some(|e|) && Unescape(e) == Some(s)
    ensures ParseString("\"" + e + "\"" + rest) == Ok(CStr(s), rest)
  {
    var r := "\"" + e + "\"" + rest;
    assert r[0] == '"' && r[1..] == e + ("\"" + rest) && r[1..1 + |e|] == e && r[2 + |e|..] == rest;
  }

  lemma {:induction false} LiteralRead(l: Literal, rest: string)
    requires LegalLiteral(l)
    ensures ParseString(InQuotes(l) + rest) == Ok(LiteralValue(l), rest)
  {
    ScanReads(l.atoms, rest);
    PiecesRead(l.pieces);
    StringIs(Joined(l.atoms), PiecesValue(l.pieces), rest);
  }

  lemma {:induction false} StringParts(r: string)
    requires ParseString(r).Ok?
    ensures ScanEnd(r[1..]).Some?
    ensures var n := ScanEnd(r[1..]).value;
      && 1 + n < |r| && r[1..][..n] == r[1..1 + n] && Unescape(r[1..1 + n]).Some?
      && ParseString(r) == Ok(CStr(Unescape(r[1..1 + n]).value), r[2 + n..])
      && r == "\"" + r[1..1 + n] + "\"" + r[2 + n..]
  {
    var n := ScanEnd(r[1..]).value;
    assert r[1 + n] == r[1..][n];
  }

  lemma {:induction false} LiteralDerived(r: string) returns (l: Literal)
    requires ParseString(r).Ok?
    ensures LegalLiteral(l) && LiteralValue(l) == ParseString(r).value && r == InQuotes(l) + ParseString(r).rest
  {
    StringParts(r);
    var atoms := ScanDerived(r[1..]);
    var pieces := PiecesDerived(r[1..1 + ScanEnd(r[1..]).value]);
    l := Literal(atoms, pieces);
  }

  /** A hexadecimal digit, in either case. */
  predicate DigitIs(c: char, n: nat) {
    n < 16 && (c == "0123456789abcdef"[n] || c == "0123456789ABCDEF"[n])
  }

  lemma {:induction false} HexDigitIs(c: char)
    ensures forall n: nat :: DigitIs(c, n) <==> HexValue(c) == Some(n)
    ensures HexValue(c).Some? ==> DigitIs(c, HexValue(c).value)
  {
    var lower, upper := "0123456789abcdef", "0123456789ABCDEF";
    forall n: nat | n < 16
      ensures lower[n] as int == (if n < 10 then '0' as int + n else 'a' as int + n - 10)
      ensures upper[n] as int == (if n < 10 then '0' as int + n else 'A' as int + n - 10)
    {
    }
    if HexValue(c).Some? {
      assert DigitIs(c, HexValue(c).value);
    }
  }

  /** Four digits stand for the number they spell. */
  lemma {:induction false} HexCode(s: string, a: nat, b: nat, c: nat, d: nat)
    requires |s| == 4 && DigitIs(s[0], a) && DigitIs(s[1], b) && DigitIs(s[2], c) && DigitIs(s[3], d)
    ensures ParseHex4(s) == ((a * 16 + b) * 16 + c) * 16 + d
  {
    HexDigitIs(s[0]);
    HexDigitIs(s[1]);
    HexDigitIs(s[2]);
    HexDigitIs(s[3]);
  }

  /** Anything else counts as 0. */
  lemma {:induction false} HexCodeMalformed(s: string, i: nat)
    requires |s| == 4 && i < 4 && forall n: nat :: !DigitIs(s[i], n)
    ensures ParseHex4(s) == 0
  {
    HexDigitIs(s[i]);
  }

  // ----- numbers

  predicate AllDigits(d: string) {
    forall i :: 0 <= i < |d| ==> '0' <= d[i] <= '9'
  }

  /** A text that does not go on with a digit. */
  predicate Stops(t: string) {
    t == "" || !('0' <= t[0] <= '9')
  }

  lemma {:induction false} NumeralSnoc(p: string, c: char)
    requires AllDigits(p) && '0' <= c <= '9'
    ensures AllDigits(p + [c]) && Numeral(p + [c]) == 10 * Numeral(p) + (c as int - '0' as int)
  {
    assert (p + [c])[..|p|] == p;
  }

  lemma {:induction false} Shift(p: string, d: string, t: string)
    requires d != ""
    ensures d + t != "" && (d + t)[0] == d[0] && (d + t)[1..] == d[1..] + t
    ensures p + d == p + [d[0]] + d[1..]
    ensures d == [d[0]] + d[1..]
  {
  }

  lemma {:induction false} ReadDigit(t: string, acc: nat)
    requires t != "" && '0' <= t[0] <= '9'
    ensures ReadDigits(t, acc) == ReadDigits(t[1..], 10 * acc + (t[0] as int - '0' as int))
  {
  }

  lemma {:induction false} DigitsRead(p: string, d: string, t: string)
    requires AllDigits(p) && AllDigits(d) && Stops(t)
    ensures AllDigits(p + d) && ReadDigits(d + t, Numeral(p)) == (Numeral(p + d), t)
    decreases |d|
  {
    if d == "" {
      assert d + t == t && p + d == p;
    } else {
      Shift(p, d, t);
      NumeralSnoc(p, d[0]);
      DigitsRead(p + [d[0]], d[1..], t);
      ReadDigit(d + t, Numeral(p));
    }
  }

  /** Digits are read as long as there are any. */
  lemma {:induction false} SplitDigits(t: string) returns (d: string, rest: string)
    ensures t == d + rest && AllDigits(d) && Stops(rest)
    decreases |t|
  {
    if t != "" && '0' <= t[0] <= '9' {
      d, rest := SplitDigits(t[1..]);
      assert t == [t[0]] + t[1..];
      d := [t[0]] + d;
    } else {
      d, rest := "", t;
    }
  }

  predicate NumberEnds(t: string) {
    t == "" || (!('0' <= t[0] <= '9') && t[0] != '.' && t[0] != 'e' && t[0] != 'E')
  }

  function Signed(negative: bool, n: nat): int {
    if negative then -(n as int) else n as int
  }

  lemma {:induction false} SignText(negative: bool, digits: string, t: string)
    requires digits != "" && AllDigits(digits)
    ensures var r := IntegerText(negative, digits) + t;
      r != "" && (r[0] == '-' <==> negative) && (if negative then r[1..] else r) == digits + t
  {
  }

  lemma {:induction false} StrtodDigits(r: string, body: string, value: nat, rest: string)
    requires r != "" && body == (if r[0] == '-' then r[1..] else r) && ReadDigits(body, 0) == (value, rest)
    ensures Strtod(r) == if |rest| == |body| || FractionOrExponent(At(rest, 0)) then None
                         else Some((Signed(r[0] == '-', value), |r| - |rest|))
  {
  }

  /** An integer token is read up to where its digits end, unless a fraction or an exponent follows. */
  lemma {:induction false} StrtodIs(negative: bool, digits: string, t: string)
    requires digits != "" && AllDigits(digits) && Stops(t)
    ensures var a := IntegerText(negative, digits);
      Strtod(a + t) == if NumberEnds(t) then Some((Signed(negative, Numeral(digits)), |a|)) else None
  {
    var a := IntegerText(negative, digits);
    DigitsRead("", digits, t);
    assert "" + digits == digits;
    SignText(negative, digits, t);
    StrtodDigits(a + t, digits + t, Numeral(digits), t);
  }

  lemma {:induction false} StrtodNeedsDigits(t: string, body: string)
    requires Strtod(t).Some? && t != "" && body == if t[0] == '-' then t[1..] else t
    ensures body != "" && '0' <= body[0] <= '9'
  {
  }

  lemma {:induction false} IntegerDerived(t: string) returns (negative: bool, digits: string, rest: string)
    requires Strtod(t).Some?
    ensures digits != "" && AllDigits(digits) && NumberEnds(rest)
    ensures t == IntegerText(negative, digits) + rest
    ensures Strtod(t).value == (Signed(negative, Numeral(digits)), |IntegerText(negative, digits)|)
  {
    negative := t[0] == '-';
    var body := if negative then t[1..] else t;
    StrtodNeedsDigits(t, body);
    digits, rest := SplitDigits(body);
    assert digits != "";
    assert t == IntegerText(negative, digits) + rest;
    StrtodIs(negative, digits, rest);
  }

  /** What `parse_number` copies. */
  function Window(r: string): string {
    if |r| <= NUMBER_BUFFER then r else r[..NUMBER_BUFFER]
  }

  lemma {:induction false} WindowOf(a: string, rest: string) returns (tail: string)
    requires |a| <= 63
    ensures Window(a + rest) == a + tail && (a + rest)[|a|..] == rest
    ensures tail != "" ==> rest != "" && tail[0] == rest[0] && |a| < 63
    ensures rest != "" && |a| < 63 ==> tail != ""
  {
    tail := Window(a + rest)[|a|..];
    assert Window(a + rest)[..|a|] == a;
  }

  lemma {:induction false} NumberRead(negative: bool, digits: string, rest: string)
    requires LegalInteger(negative, digits) && Follows(Integer(negative, digits), rest)
    ensures ParseNumber(IntegerText(negative, digits) + rest) == Ok(Signed(negative, Numeral(digits)), rest)
  {
    var tail := WindowOf(IntegerText(negative, digits), rest);
    StrtodIs(negative, digits, tail);
  }

  lemma {:induction false} NumberParts(r: string)
    requires ParseNumber(r).Ok?
    ensures Strtod(Window(r)).Some? && -NUM_LIMIT < Strtod(Window(r)).value.0 < NUM_LIMIT
    ensures ParseNumber(r) == Ok(Strtod(Window(r)).value.0, r[Strtod(Window(r)).value.1..])
  {
  }

  lemma {:induction false} NumberDerived(r: string) returns (negative: bool, digits: string)
    requires ParseNumber(r).Ok?
    ensures LegalInteger(negative, digits) && Follows(Integer(negative, digits), ParseNumber(r).rest)
    ensures r == IntegerText(negative, digits) + ParseNumber(r).rest
    ensures ParseNumber(r).value == Signed(negative, Numeral(digits))
  {
    var t := Window(r);
    NumberParts(r);
    var end;
    negative, digits, end := IntegerDerived(t);
    var a := IntegerText(negative, digits);
    var rest := r[|a|..];
    assert t[..|a|] == a && t[..|a|] == r[..|a|];
    assert r == a + rest;
    var tail := WindowOf(a, rest);
    assert (a + tail)[|a|..] == tail && (a + end)[|a|..] == end;
  }
}
