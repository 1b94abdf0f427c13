/**
 The language `cJSON_Parse` reads, as a grammar: concrete syntax, its text, and the tree it stands for. It is the
 grammar of RFC 8259 with the liberties the code takes: every byte up to 32 is white space, numbers may have leading
 zeros, and string literals are read twice, in two ways that need not agree.
 */
module Grammar {
  import opened Json
  import opened Pointer
  import opened Unicode
  import opened JsonText

  // ----- strings

  /** What the first pass over a string literal sees: a character, or a backslash and whatever follows it. */
  predicate Atom(a: string) {
    (|a| == 1 && a[0] != '"' && a[0] != '\\') || (|a| == 2 && a[0] == '\\')
  }

  function Joined(atoms: seq<string>): string {
    if atoms == [] then "" else atoms[0] + Joined(atoms[1..])
  }

  /** What the second pass sees. A backslash can be the last character only after a malformed `\u` escape. */
  datatype Piece =
    | Plain(c: char)
    | Short(letter: char)
    | Unit(code: string)
    | Pair(high: string, low: string)
    | Stray

  /** The short escapes of section 7 of RFC 8259. */
  const SHORT: map<char, char> :=
    map['"' := '"', '\\' := '\\', '/' := '/', 'b' := '\U{0008}', 'f' := '\U{000c}', 'n' := '\n', 'r' := '\r', 't' := '\t']

  predicate LegalPiece(p: Piece) {
    match p
    case Plain(c) => c != '\\'
    case Short(letter) => letter in SHORT
    case Unit(code) => |code| == 4 && !(0xD800 <= ParseHex4(code) <= 0xDFFF)
    case Pair(high, low) =>
      && |high| == 4 && 0xD800 <= ParseHex4(high) <= 0xDBFF
      && |low| == 4 && 0xDC00 <= ParseHex4(low) <= 0xDFFF
    case Stray => true
  }

  function PieceText(p: Piece): string {
    match p
    case Plain(c) => [c]
    case Short(letter) => "\\" + [letter]
    case Unit(code) => "\\u" + code
    case Pair(high, low) => "\\u" + high + ("\\u" + low)
    case Stray => "\\"
  }

  /** A stray backslash takes the quote after the literal. */
  function PieceValue(p: Piece): string
    requires LegalPiece(p)
  {
    match p
    case Plain(c) => [c]
    case Short(letter) => [SHORT[letter]]
    case Unit(code) => Utf8(ParseHex4(code))
    case Pair(high, low) => Utf8(0x10000 + 1024 * (ParseHex4(high) - 0xD800) + (ParseHex4(low) - 0xDC00))
    case Stray => "\""
  }

  predicate LegalPieces(ps: seq<Piece>) {
    forall i :: 0 <= i < |ps| ==> LegalPiece(ps[i]) && (ps[i].Stray? ==> i == |ps| - 1)
  }

  function PiecesText(ps: seq<Piece>): string {
    if ps == [] then "" else PieceText(ps[0]) + PiecesText(ps[1..])
  }

  function PiecesValue(ps: seq<Piece>): string
    requires LegalPieces(ps)
  {
    if ps == [] then ""
    else
      assert forall i :: 0 <= i < |ps| - 1 ==> ps[1..][i] == ps[i + 1];
      PieceValue(ps[0]) + PiecesValue(ps[1..])
  }

  /** The inside of a string literal, as either pass sees it. */
  datatype Literal = Literal(atoms: seq<string>, pieces: seq<Piece>)

  ghost predicate LegalLiteral(l: Literal) {
    && (forall a :: a in l.atoms ==> Atom(a))
    && LegalPieces(l.pieces) && PiecesText(l.pieces) == Joined(l.atoms)
  }

  function InQuotes(l: Literal): string {
    "\"" + Joined(l.atoms) + "\""
  }

  /** The value is a C string: it ends at the first NUL. */
  function LiteralValue(l: Literal): string
    requires LegalPieces(l.pieces)
  {
    CStr(PiecesValue(l.pieces))
  }

  // ----- values

  datatype Syntax =
    | Word(word: Json)
    | Integer(negative: bool, digits: string)
    | Quoted(literal: Literal)
    | EmptyList(blank: string)
    | List(elements: seq<Element>)
    | EmptyRecord(blank: string)
    | Record(entries: seq<Entry>)

  datatype Element = Element(before: string, item: Syntax, after: string)

  datatype Entry = Entry(before: string, key: Literal, gap: string, space: string, item: Syntax, after: string)

  predicate White(w: string) {
    forall i :: 0 <= i < |w| ==> w[i] as int <= 32
  }

  function IntegerText(negative: bool, digits: string): string {
    (if negative then "-" else "") + digits
  }

  /** A number of the modelled range that fits into the buffer of `parse_number`. */
  predicate LegalInteger(negative: bool, digits: string) {
    && digits != "" && (forall i :: 0 <= i < |digits| ==> '0' <= digits[i] <= '9')
    && |IntegerText(negative, digits)| <= 63
    && Numeral(digits) < NUM_LIMIT
  }

  ghost predicate Legal(c: Syntax) {
    match c
    case Word(word) => word.Null? || word.False? || word.True?
    case Integer(negative, digits) => LegalInteger(negative, digits)
    case Quoted(literal) => LegalLiteral(literal)
    case EmptyList(blank) => White(blank)
    case List(es) => es != [] && forall e :: e in es ==> LegalElement(e)
    case EmptyRecord(blank) => White(blank)
    case Record(es) => es != [] && forall e :: e in es ==> LegalEntry(e)
  }

  ghost predicate LegalElement(e: Element) {
    White(e.before) && Legal(e.item) && White(e.after)
  }

  ghost predicate LegalEntry(e: Entry) {
    White(e.before) && LegalLiteral(e.key) && White(e.gap) && White(e.space) && Legal(e.item) && White(e.after)
  }

  ghost predicate LegalElements(es: seq<Element>) {
    forall e :: e in es ==> LegalElement(e)
  }

  ghost predicate LegalEntries(es: seq<Entry>) {
    forall e :: e in es ==> LegalEntry(e)
  }

  function WordText(word: Json): string {
    match word
    case Null => "null"
    case False => "false"
    case True => "true"
    case _ => ""
  }

  function Text(c: Syntax): string
    decreases c, 1
  {
    match c
    case Word(word) => WordText(word)
    case Integer(negative, digits) => IntegerText(negative, digits)
    case Quoted(literal) => InQuotes(literal)
    case EmptyList(blank) => "[" + blank + "]"
    case List(es) => "[" + ElementsText(es) + "]"
    case EmptyRecord(blank) => "{" + blank + "}"
    case Record(es) => "{" + EntriesText(es) + "}"
  }

  function ElementsText(es: seq<Element>): string
    decreases es, 0
  {
    if es == [] then ""
    else
      var one := ElementText(es[0]);
      if |es| == 1 then one else one + "," + ElementsText(es[1..])
  }

  function ElementText(e: Element): string
    decreases e, 0
  {
    e.before + Text(e.item) + e.after
  }

  function EntriesText(es: seq<Entry>): string
    decreases es, 0
  {
    if es == [] then ""
    else
      var one := EntryText(es[0]);
      if |es| == 1 then one else one + "," + EntriesText(es[1..])
  }

  function EntryText(e: Entry): string
    decreases e, 0
  {
    e.before + InQuotes(e.key) + e.gap + ":" + e.space + Text(e.item) + e.after
  }

  ghost function Tree(c: Syntax): Json
    requires Legal(c)
    decreases c, 1
  {
    match c
    case Word(word) => word
    case Integer(negative, digits) =>
      var n: int := Numeral(digits);
      Number(if negative then -n else n)
    case Quoted(literal) => Str(LiteralValue(literal))
    case EmptyList(_) => Array([])
    case List(es) => Array(ElementsTree(es))
    case EmptyRecord(_) => Object([])
    case Record(es) => Object(EntriesTree(es))
  }

  ghost function ElementsTree(es: seq<Element>): seq<Json>
    requires LegalElements(es)
    decreases es, 0
  {
    if es == [] then []
    else
      assert LegalElement(es[0]);
      [Tree(es[0].item)] + ElementsTree(es[1..])
  }

  ghost function EntriesTree(es: seq<Entry>): seq<Member>
    requires LegalEntries(es)
    decreases es, 0
  {
    if es == [] then []
    else
      assert LegalEntry(es[0]);
      [Member(LiteralValue(es[0].key), Tree(es[0].item))] + EntriesTree(es[1..])
  }

  /** What may come after a value: a number must end there, unless it fills the buffer. */
  predicate Follows(c: Syntax, rest: string) {
    c.Integer? && |IntegerText(c.negative, c.digits)| < 63 && rest != "" ==>
      !('0' <= rest[0] <= '9') && rest[0] != '.' && rest[0] != 'e' && rest[0] != 'E'
  }
}
