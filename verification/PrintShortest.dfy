/**
 Unformatted output is the shortest way to write a tree: no escape, no digit and no blank of it can be spared, as long
 as control characters are escaped.
 */
module PrintShortest {
  import opened Json
  import opened Pointer
  import opened Unicode
  import opened JsonText
  import opened Grammar
  import opened GrammarParts

  // ----- strings

  /** A piece that RFC 8259 allows: control characters are escaped, and the two passes agree. */
  predicate CleanPiece(p: Piece) {
    match p
    case Plain(c) => c >= ' ' && c != '"'
    case Stray => false
    case _ => true
  }

  lemma {:induction false} EscapeConcat(a: string, b: string)
    ensures Escape(a + b) == Escape(a) + Escape(b)
  {
    if a == "" {
      assert a + b == b;
    } else {
      EscapeConcat(a[1..], b);
      assert (a + b)[1..] == a[1..] + b;
      Associative(EscapeChar(a[0]), Escape(a[1..]), Escape(b));
    }
  }

  lemma {:induction false} EscapeOne(c: char)
    ensures Escape([c]) == EscapeChar(c)
  {
    assert [c][1..] == "";
    assert EscapeChar(c) + "" == EscapeChar(c);
  }

  lemma {:induction false} HighUnescaped(s: string)
    requires forall i :: 0 <= i < |s| ==> s[i] as int >= 0x80
    ensures Escape(s) == s
  {
    if s != "" {
      HighUnescaped(s[1..]);
      assert s == [s[0]] + s[1..];
    }
  }

  lemma {:induction false} Utf8Short(n: nat)
    requires n <= 0x10FFFF
    ensures |Escape(Utf8(n))| <= 6
    ensures n >= 0x10000 ==> |Escape(Utf8(n))| <= 12
  {
    if n < 0x80 {
      EscapeOne(n as char);
    } else {
      HighUnescaped(Utf8(n));
    }
  }

  lemma {:induction false} PieceShortest(p: Piece)
    requires LegalPiece(p) && CleanPiece(p)
    ensures |Escape(PieceValue(p))| <= |PieceText(p)|
  {
    match p
    case Plain(c) => EscapeOne(c);
    case Short(letter) => EscapeOne(SHORT[letter]);
    case Unit(code) => Utf8Short(ParseHex4(code));
    case Pair(high, low) => Utf8Short(0x10000 + 1024 * (ParseHex4(high) - 0xD800) + (ParseHex4(low) - 0xDC00));
  }

  lemma {:induction false} PiecesShortest(ps: seq<Piece>)
    requires LegalPieces(ps) && forall p :: p in ps ==> CleanPiece(p)
    ensures |Escape(PiecesValue(ps))| <= |PiecesText(ps)|
  {
    if ps != [] {
      TailPieces(ps);
      PiecesShortest(ps[1..]);
      PieceShortest(ps[0]);
      EscapeConcat(PieceValue(ps[0]), PiecesValue(ps[1..]));
    }
  }

  lemma {:induction false} PrefixShorter(a: string, s: string)
    requires a <= s
    ensures |Escape(a)| <= |Escape(s)|
  {
    EscapeConcat(a, s[|a|..]);
    assert s == a + s[|a|..];
  }

  predicate CleanLiteral(l: Literal) {
    forall p :: p in l.pieces ==> CleanPiece(p)
  }

  lemma {:induction false} QuoteShortest(l: Literal)
    requires LegalLiteral(l) && CleanLiteral(l)
    ensures |Quote(LiteralValue(l))| <= |InQuotes(l)|
  {
    CStrIs(PiecesValue(l.pieces));
    PrefixShorter(LiteralValue(l), PiecesValue(l.pieces));
    PiecesShortest(l.pieces);
  }

  // ----- numbers

  lemma {:induction false} DecimalShortest(d: string)
    requires d != "" && AllDigits(d)
    ensures |Decimal(Numeral(d))| <= |d|
  {
    var front, last := d[..|d| - 1], d[|d| - 1] as int - '0' as int;
    assert front == "" ==> Numeral(front) == 0;
    if Numeral(d) >= 10 {
      assert Numeral(d) / 10 == Numeral(front);
      DecimalShortest(front);
    }
  }

  lemma {:induction false} NumberShortest(negative: bool, digits: string)
    requires LegalInteger(negative, digits)
    ensures |PrintNumber(Signed(negative, Numeral(digits)))| <= |IntegerText(negative, digits)|
  {
    DecimalShortest(digits);
  }

  // ----- trees

  predicate Clean(c: Syntax) {
    match c
    case Quoted(l) => CleanLiteral(l)
    case List(es) => forall e :: e in es ==> Clean(e.item)
    case Record(es) => forall e :: e in es ==> CleanLiteral(e.key) && Clean(e.item)
    case _ => true
  }

  ghost predicate CleanElements(es: seq<Element>) {
    forall e :: e in es ==> Clean(e.item)
  }

  ghost predicate CleanEntries(es: seq<Entry>) {
    forall e :: e in es ==> CleanLiteral(e.key) && Clean(e.item)
  }

  /** No clean text of a tree is shorter than the one that is printed. */
  lemma {:induction false} PrintedShortest(c: Syntax, depth: nat)
    requires Legal(c) && Clean(c)
    ensures |Print(Tree(c), false, depth)| <= |Text(c)|
    decreases c, 1
  {
    match c
    case Word(_) =>
    case Integer(negative, digits) => NumberShortest(negative, digits);
    case Quoted(l) => QuoteShortest(l);
    case EmptyList(_) =>
    case List(es) =>
      assert LegalElements(es) && CleanElements(es);
      ElementsShortest(es, depth + 1);
    case EmptyRecord(_) =>
    case Record(es) =>
      assert LegalEntries(es) && CleanEntries(es);
      EntriesShortest(es, depth + 1);
  }

  lemma {:induction false} ElementsShortest(es: seq<Element>, depth: nat)
    requires LegalElements(es) && CleanElements(es)
    ensures |PrintItems(ElementsTree(es), false, depth)| <= |ElementsText(es)|
    decreases es, 0
  {
    if es != [] {
      assert LegalElement(es[0]);
      PrintedShortest(es[0].item, depth);
      ElementsShortest(es[1..], depth);
      var items, more := ElementsTree(es), ElementsTree(es[1..]);
      assert items[0] == Tree(es[0].item) && items[1..] == more;
      assert |es| == 1 <==> more == [];
    }
  }

  lemma {:induction false} EntriesShortest(es: seq<Entry>, depth: nat)
    requires LegalEntries(es) && CleanEntries(es)
    ensures |PrintMembers(EntriesTree(es), false, depth)| <= |EntriesText(es)|
    decreases es, 0
  {
    if es != [] {
      assert LegalEntry(es[0]);
      QuoteShortest(es[0].key);
      PrintedShortest(es[0].item, depth);
      EntriesShortest(es[1..], depth);
      var ms, more := EntriesTree(es), EntriesTree(es[1..]);
      assert ms[0] == Member(LiteralValue(es[0].key), Tree(es[0].item)) && ms[1..] == more;
      assert |es| == 1 <==> more == [];
    }
  }
}
