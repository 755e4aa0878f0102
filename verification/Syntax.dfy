/**
 * The documents the reader is for: a grammar in the shape of RFC 8259, with comments in the gaps,
 * and the value each derivation means. The productions that only this reader has are marked; nothing
 * here is defined by what the reader does.
 */
module Syntax {
  import opened Bytes
  import Decimal
  import opened StringSyntax
  import opened JsonValue

  // ---------- gaps between tokens ----------

  datatype Blank = Space(b: Byte) | Block(body: Text) | Line(body: Text, eol: Byte)

  type Gap = seq<Blank>

  /** The four bytes of insignificant whitespace (section 2 of RFC 8259), or a comment. */
  predicate BlankWf(x: Blank)
  {
    match x
    case Space(b) => b in {0x20, 0x09, 0x0A, 0x0D}
    case Block(body) => forall k | 0 <= k < |body| - 1 :: !(body[k] == STAR && body[k + 1] == SLASH)
    case Line(body, eol) => (eol == LF || eol == CR) && LF !in body && CR !in body
  }

  function BlankText(x: Blank): (t: Text)
    ensures t != []
  {
    match x
    case Space(b) => [b]
    case Block(body) => [SLASH, STAR] + (body + [STAR, SLASH])
    case Line(body, eol) => [SLASH, SLASH] + (body + [eol])
  }

  predicate GapWf(g: Gap) { forall x | x in g :: BlankWf(x) }

  function GapText(g: Gap): Text
  {
    if g == [] then [] else BlankText(g[0]) + GapText(g[1..])
  }

  /** Spaces only: no comment is accepted before a colon or in an empty array. */
  predicate SpacesOnly(g: Gap) { forall x | x in g :: x.Space? }

  // ---------- numbers ----------

  /** A number token: what `readNumber` takes is more than a number of RFC 8259. */
  datatype Numeral = Numeral(first: Byte, digits: Text, fraction: Text, exponent: Text)
  {
    predicate Wf()
    {
      && (Decimal.IsDigit(first) || first == MINUS) && Decimal.AllDigits(digits)
      && (fraction == [] || (fraction[0] == DOT && Decimal.AllDigits(fraction[1..])))
      && (exponent == [] || (exponent[0] in {0x65, 0x45} && Decimal.AllDigits(ExponentDigits())))
    }

    predicate Signed() { |exponent| > 1 && exponent[1] in {0x2B, MINUS} }

    function ExponentDigits(): Text
      requires exponent != []
    {
      if Signed() then exponent[2..] else exponent[1..]
    }

    function ToText(): Text { [first] + (digits + (fraction + exponent)) }

    /** An optional minus and digits; a minus alone denotes zero. */
    predicate Integral() { fraction == [] && exponent == [] }

    function Integer(): int
      requires Wf()
    {
      if first == MINUS then 0 - Decimal.Magnitude(digits) else Decimal.Magnitude([first] + digits)
    }

    /** An integer of 64 bits, with a sign or without. */
    predicate Fits()
      requires Wf()
    {
      Integral() && -0x8000_0000_0000_0000 <= Integer() <= 0xFFFF_FFFF_FFFF_FFFF
    }

    /** The token could have gone on with b. */
    predicate Extends(b: Byte)
    {
      || Decimal.IsDigit(b)
      || (b == DOT && fraction == [] && exponent == [])
      || (b in {0x65, 0x45} && exponent == [])
      || (b in {0x2B, MINUS} && |exponent| == 1)
    }
  }

  // ---------- values ----------

  datatype Tree =
    | Constant(text: Text)
    | Number(numeral: Numeral)
    | String(pieces: seq<Piece>)
    | EmptyArray(spaces: Gap)
    | Array(elements: Elements)
    | Object(fields: Fields)

  /** Elements up to the closing bracket. */
  datatype Elements =
    | LastElement(before: Gap, item: Tree, after: Gap)
    | MoreElements(before: Gap, item: Tree, after: Gap, rest: Elements)

  datatype Field = Field(before: Gap, name: seq<Piece>, spaces: Gap, between: Gap, value: Tree, after: Gap)

  /** Fields up to the closing brace. */
  datatype Fields =
    | NoField(gap: Gap)
    | LastField(field: Field)
    | MoreFields(field: Field, separator: Text, rest: Fields)

  function TreeText(d: Tree): Text
    decreases d, 0
  {
    match d
    case Constant(text) => text
    case Number(numeral) => numeral.ToText()
    case String(pieces) => [QUOTE] + (PiecesText(pieces) + [QUOTE])
    case EmptyArray(spaces) => [LBRACKET] + (GapText(spaces) + [RBRACKET])
    case Array(elements) => [LBRACKET] + ElementsText(elements)
    case Object(fields) => [LBRACE] + FieldsText(fields)
  }

  function ElementsText(es: Elements): Text
    decreases es, 1
  {
    GapText(es.before) + (TreeText(es.item) + (GapText(es.after) +
      match es
      case LastElement(_, _, _) => [RBRACKET]
      case MoreElements(_, _, _, rest) => [COMMA] + ElementsText(rest)))
  }

  function NameText(name: seq<Piece>): (t: Text)
    ensures |t| >= 2
  {
    [QUOTE] + (PiecesText(name) + [QUOTE])
  }

  function FieldText(f: Field): Text
    decreases f, 1
  {
    GapText(f.before) + (NameText(f.name) + (GapText(f.spaces) + ([COLON] + (GapText(f.between) +
      (TreeText(f.value) + GapText(f.after))))))
  }

  function FieldsText(fs: Fields): Text
    decreases fs, 2
  {
    match fs
    case NoField(gap) => GapText(gap) + [RBRACE]
    case LastField(f) => FieldText(f) + [RBRACE]
    case MoreFields(f, separator, rest) => FieldText(f) + (separator + FieldsText(rest))
  }

  // ---------- well-formedness ----------

  predicate Wf(d: Tree, extracts: Text -> bool)
    decreases d, 0
  {
    match d
    case Constant(text) => text == NULL_TEXT || text == TRUE_TEXT || text == FALSE_TEXT
    case Number(numeral) => numeral.Wf() && (numeral.Fits() || extracts(numeral.ToText()))
    case String(pieces) => PiecesWf(pieces)
    case EmptyArray(spaces) => GapWf(spaces) && SpacesOnly(spaces)
    case Array(elements) => ElementsWf(elements, extracts)
    case Object(fields) => FieldsWf(fields, [], extracts)
  }

  predicate ElementsWf(es: Elements, extracts: Text -> bool)
    decreases es, 1
  {
    GapWf(es.before) && GapWf(es.after) && Wf(es.item, extracts) &&
    match es
    case LastElement(_, _, _) => true
    case MoreElements(_, _, _, rest) => ElementsWf(rest, extracts)
  }

  predicate FieldWf(f: Field, extracts: Text -> bool)
    decreases f, 1
  {
    && GapWf(f.before) && PiecesWf(f.name) && GapWf(f.spaces) && SpacesOnly(f.spaces)
    && GapWf(f.between) && GapWf(f.after) && Wf(f.value, extracts)
  }

  /**
   * The last name read is `last`. Only in this reader: a closing brace may follow a comma when the
   * last name was empty, and any one token may stand for the comma behind a comment.
   */
  predicate FieldsWf(fs: Fields, last: Text, extracts: Text -> bool)
    decreases fs, 2
  {
    match fs
    case NoField(gap) => GapWf(gap) && last == []
    case LastField(f) => FieldWf(f, extracts)
    case MoreFields(f, separator, rest) =>
      && FieldWf(f, extracts) && (separator == [COMMA] || (separator != [] && !SpacesOnly(f.after)))
      && FieldsWf(rest, PiecesMeaning(f.name), extracts)
  }

  // ---------- meaning ----------

  /** An integer of 64 bits, signed when it fits an `int`; every other number is a real. */
  function NumberMeaning(n: Numeral): Value
    requires n.Wf()
  {
    if !n.Fits() then Real(n.ToText()) else if n.Integer() <= 0x7FFF_FFFF then Int(n.Integer()) else UInt(n.Integer())
  }

  function Meaning(d: Tree, extracts: Text -> bool): Value
    requires Wf(d, extracts)
    decreases d, 0
  {
    match d
    case Constant(text) => if text == NULL_TEXT then Null else Bool(text == TRUE_TEXT)
    case Number(numeral) => NumberMeaning(numeral)
    case String(pieces) => Str(PiecesMeaning(pieces))
    case EmptyArray(_) => Arr([])
    case Array(elements) => Arr(ElementsMeaning(elements, extracts))
    case Object(fields) => Obj(FieldsMeaning([], fields, [], extracts))
  }

  function ElementsMeaning(es: Elements, extracts: Text -> bool): seq<Value>
    requires ElementsWf(es, extracts)
    decreases es, 1
  {
    match es
    case LastElement(_, item, _) => [Meaning(item, extracts)]
    case MoreElements(_, item, _, rest) => [Meaning(item, extracts)] + ElementsMeaning(rest, extracts)
  }

  function WithField(done: seq<Member>, f: Field, extracts: Text -> bool): seq<Member>
    requires FieldWf(f, extracts)
    decreases f, 1
  {
    Put(done, PiecesMeaning(f.name), Meaning(f.value, extracts))
  }

  /** The members `done` updated by the fields in order: the last of equal names wins. */
  function FieldsMeaning(done: seq<Member>, fs: Fields, last: Text, extracts: Text -> bool): seq<Member>
    requires FieldsWf(fs, last, extracts)
    decreases fs, 2
  {
    match fs
    case NoField(_) => done
    case LastField(f) => WithField(done, f, extracts)
    case MoreFields(f, _, rest) => FieldsMeaning(WithField(done, f, extracts), rest, PiecesMeaning(f.name), extracts)
  }

  // ---------- nesting ----------

  /** No array or object is nested deeper than n levels, a scalar counting as one. */
  predicate Within(d: Tree, n: int)
    decreases d, 0
  {
    n >= 1 &&
    match d
    case Array(elements) => ElementsWithin(elements, n - 1)
    case Object(fields) => FieldsWithin(fields, n - 1)
    case _ => true
  }

  predicate ElementsWithin(es: Elements, n: int)
    decreases es, 1
  {
    Within(es.item, n) && (es.MoreElements? ==> ElementsWithin(es.rest, n))
  }

  predicate FieldsWithin(fs: Fields, n: int)
    decreases fs, 2
  {
    match fs
    case NoField(_) => true
    case LastField(f) => Within(f.value, n)
    case MoreFields(f, _, rest) => Within(f.value, n) && FieldsWithin(rest, n)
  }

  // ---------- separators ----------

  /** The lexemes that may stand for a comma behind a comment: all but a closing brace. */
  datatype Lexeme =
    | Mark(b: Byte)
    | StringLike(body: Text) // in quotes, whatever its escapes
    | NumberLike(numeral: Numeral)
    | Word(text: Text)
    | SlashAnd(b: Byte) // the beginning of no comment
    | Stray(b: Byte)

  function LexemeText(x: Lexeme): Text
  {
    match x
    case Mark(b) => [b]
    case StringLike(body) => [QUOTE] + (body + [QUOTE])
    case NumberLike(numeral) => numeral.ToText()
    case Word(text) => text
    case SlashAnd(b) => [SLASH, b]
    case Stray(b) => [b]
  }

  /** Bytes and two-byte escapes with no quote between them. */
  predicate StringBody(t: Text)
  {
    t == [] || (if t[0] == BACKSLASH then |t| >= 2 && StringBody(t[2..]) else t[0] != QUOTE && StringBody(t[1..]))
  }

  /** The document holds the lexeme at q. */
  ghost predicate LexemeAt(doc: Text, q: nat, x: Lexeme)
  {
    At(doc, q, LexemeText(x)) &&
    match x
    case Mark(b) => b in {COMMA, COLON, LBRACKET, RBRACKET, LBRACE}
    case StringLike(body) => StringBody(body)
    case NumberLike(numeral) => numeral.Wf() && Bounded(doc, q, numeral)
    case Word(text) => text == NULL_TEXT || text == TRUE_TEXT || text == FALSE_TEXT
    case SlashAnd(b) => b != STAR && b != SLASH
    case Stray(b) =>
      && b !in {0x20, 0x09, 0x0A, 0x0D, COMMA, COLON, LBRACKET, RBRACKET, LBRACE, RBRACE, QUOTE, SLASH, MINUS}
      && !Decimal.IsDigit(b) && !At(doc, q, NULL_TEXT) && !At(doc, q, TRUE_TEXT) && !At(doc, q, FALSE_TEXT)
  }

  /** The text at q stands for a comma: it is a comma, or one lexeme. */
  ghost predicate Separates(doc: Text, q: nat, separator: Text)
  {
    separator == [COMMA] || exists x :: LexemeAt(doc, q, x) && separator == LexemeText(x)
  }

  /** Every separator in the text of the tree, which begins at p, stands for a comma. */
  ghost predicate Separated(doc: Text, p: nat, d: Tree)
    decreases d, 0
  {
    match d
    case Array(elements) => ElementsSeparated(doc, p + 1, elements)
    case Object(fields) => FieldsSeparated(doc, p + 1, fields)
    case _ => true
  }

  ghost predicate ElementsSeparated(doc: Text, p: nat, es: Elements)
    decreases es, 1
  {
    var q := p + |GapText(es.before)|;
    && Separated(doc, q, es.item)
    && (es.MoreElements? ==> ElementsSeparated(doc, q + |TreeText(es.item)| + |GapText(es.after)| + 1, es.rest))
  }

  /** Where the value of a field that begins at p begins. */
  function ValueStart(p: nat, f: Field): nat
  {
    p + |GapText(f.before)| + |NameText(f.name)| + |GapText(f.spaces)| + 1 + |GapText(f.between)|
  }

  ghost predicate FieldsSeparated(doc: Text, p: nat, fs: Fields)
    decreases fs, 2
  {
    match fs
    case NoField(_) => true
    case LastField(f) => Separated(doc, ValueStart(p, f), f.value)
    case MoreFields(f, separator, rest) =>
      && Separated(doc, ValueStart(p, f), f.value)
      && Separates(doc, p + |FieldText(f)|, separator)
      && FieldsSeparated(doc, p + |FieldText(f)| + |separator|, rest)
  }

  /** The numeral at p cannot go on with the byte behind it. */
  predicate Bounded(doc: Text, p: nat, n: Numeral)
  {
    p + |n.ToText()| < |doc| ==> !n.Extends(doc[p + |n.ToText()|])
  }

  /** The document holds the text of d at p, and the reader will take all of it and no more. */
  ghost predicate Holds(doc: Text, p: nat, d: Tree)
  {
    At(doc, p, TreeText(d)) && Separated(doc, p, d) && (d.Number? ==> Bounded(doc, p, d.numeral))
  }

  /** The document is a gap, a tree and anything at all that the tree does not go on with. */
  ghost predicate Document(doc: Text, extracts: Text -> bool, g: Gap, d: Tree)
  {
    GapWf(g) && Wf(d, extracts) && At(doc, 0, GapText(g)) && Holds(doc, |GapText(g)|, d)
  }
}
