/** Where the reader accepts more than RFC 8259 and its comments: a document for each production. */
module Leniency {
  import opened Bytes
  import Decimal
  import opened Quote
  import opened StringSyntax
  import opened JsonValue
  import opened ReaderSpec
  import opened Syntax
  import opened Lexing
  import opened Accepts

  function OneDigit(b: Byte): Tree { Number(Numeral(b, [], [], [])) }

  lemma OneDigitRead(extracts: Text -> bool, b: Byte)
    requires Decimal.IsDigit(b)
    ensures Wf(OneDigit(b), extracts) && Meaning(OneDigit(b), extracts) == Int(b - ZERO)
    ensures TreeText(OneDigit(b)) == [b]
  {
    var n := Numeral(b, [], [], []);
    assert n.ToText() == [b] && [b][..0] == [];
    assert Decimal.Magnitude([b]) == Decimal.Magnitude([b][..0]) * 10 + (b - ZERO);
  }

  /** A field holding the digit b. */
  function DigitField(name: seq<Piece>, b: Byte, after: Gap): Field { Field([], name, [], [], OneDigit(b), after) }

  lemma DigitFieldRead(extracts: Text -> bool, name: seq<Piece>, b: Byte, after: Gap, done: seq<Member>)
    requires Decimal.IsDigit(b) && PiecesWf(name) && GapWf(after)
    ensures var f := DigitField(name, b, after);
            && FieldWf(f, extracts) && WithField(done, f, extracts) == Put(done, PiecesMeaning(name), Int(b - ZERO))
            && FieldText(f) == NameText(name) + ([COLON, b] + GapText(after))
  {
    hide PiecesMeaning, PiecesWf, NameText, Wf, Meaning, TreeText, OneDigit, Put, GapText, FieldText;
    OneDigitRead(extracts, b);
    NoBlanks();
    CompactField(DigitField(name, b, after));
    assert [COLON] + [] == [COLON];
    assert NameText(name) + [COLON] + [b] + GapText(after) == NameText(name) + ([COLON, b] + GapText(after));
  }

  lemma DerivedForm(extracts: Text -> bool, f: Field, separator: Text, rest: Fields)
    requires FieldWf(f, extracts) && separator != [] && (separator == [COMMA] || !SpacesOnly(f.after))
    requires PiecesWf(f.name) && FieldsWf(rest, PiecesMeaning(f.name), extracts)
    ensures var d := Object(MoreFields(f, separator, rest));
            && Wf(d, extracts)
            && Meaning(d, extracts)
               == Obj(FieldsMeaning(WithField([], f, extracts), rest, PiecesMeaning(f.name), extracts))
            && TreeText(d) == [LBRACE] + (FieldText(f) + (separator + FieldsText(rest)))
  {
    hide FieldText, FieldWf, WithField, PiecesMeaning, PiecesWf, SpacesOnly;
    assert FieldsWf(MoreFields(f, separator, rest), [], extracts);
  }

  lemma DerivedPlace(doc: Text, f: Field, separator: Text, rest: Fields)
    requires f.value.Number? && FieldsWithin(rest, STACK_LIMIT - 1)
    requires Separates(doc, 1 + |FieldText(f)|, separator)
    requires FieldsSeparated(doc, 1 + |FieldText(f)| + |separator|, rest)
    ensures var d := Object(MoreFields(f, separator, rest)); Separated(doc, 0, d) && Within(d, STACK_LIMIT)
  {
    NumbersArePlain(doc, ValueStart(1, f), f.value);
    MorePlace(doc, f, separator, rest);
    hide *;
    ObjectPlace(doc, MoreFields(f, separator, rest));
  }

  lemma NumbersArePlain(doc: Text, p: nat, d: Tree)
    requires d.Number?
    ensures Separated(doc, p, d) && Within(d, STACK_LIMIT - 1)
  {
  }

  lemma MorePlace(doc: Text, f: Field, separator: Text, rest: Fields)
    requires Separated(doc, ValueStart(1, f), f.value) && Within(f.value, STACK_LIMIT - 1)
    requires Separates(doc, 1 + |FieldText(f)|, separator)
    requires FieldsSeparated(doc, 1 + |FieldText(f)| + |separator|, rest) && FieldsWithin(rest, STACK_LIMIT - 1)
    ensures var fs := MoreFields(f, separator, rest); FieldsSeparated(doc, 1, fs) && FieldsWithin(fs, STACK_LIMIT - 1)
  {
    hide FieldText, Separates, Separated, Within, ValueStart;
  }

  lemma ObjectPlace(doc: Text, fs: Fields)
    requires FieldsSeparated(doc, 1, fs) && FieldsWithin(fs, STACK_LIMIT - 1)
    ensures Separated(doc, 0, Object(fs)) && Within(Object(fs), STACK_LIMIT)
  {
    hide FieldsSeparated, FieldsWithin;
  }

  lemma Witness(doc: Text, extracts: Text -> bool, d: Tree, root: Value)
    requires doc == TreeText(d) && Wf(d, extracts) && d.Object? && Separated(doc, 0, d) && Within(d, STACK_LIMIT)
    ensures var r := Parse(doc, extracts, root); r.Done? && r.ok && r.value == Meaning(d, extracts)
  {
    hide Wf, TreeText, Separated, Within, Meaning, Parse, SkipComments;
    assert GapText([]) == [] && At(doc, 0, []) && At(doc, 0, doc);
    DocumentAccepted(doc, extracts, [], d, root);
  }

  /** `{"":1,}` is accepted: behind an empty name the closing brace may follow a comma. */
  lemma CommaBehindEmptyName(extracts: Text -> bool, root: Value)
    ensures var r := Parse([LBRACE, QUOTE, QUOTE, COLON, 0x31, COMMA, RBRACE], extracts, root);
            r.Done? && r.ok && r.value == Obj([Member([], Int(1))])
  {
    var f, rest := DigitField([], 0x31, []), NoField([]);
    var d := Object(MoreFields(f, [COMMA], rest));
    DigitFieldRead(extracts, [], 0x31, [], []);
    hide FieldText, WithField, FieldWf, Parse;
    assert FieldsText(rest) == [RBRACE] && FieldsWf(rest, [], extracts);
    DerivedForm(extracts, f, [COMMA], rest);
    DerivedPlace(TreeText(d), f, [COMMA], rest);
    assert TreeText(d) == [LBRACE, QUOTE, QUOTE, COLON, 0x31, COMMA, RBRACE];
    Witness(TreeText(d), extracts, d, root);
  }

  const COLON_DOCUMENT: Text :=
    [LBRACE, QUOTE, 0x61, QUOTE, COLON, 0x31, SLASH, STAR, STAR, SLASH, COLON, QUOTE, 0x62, QUOTE, COLON, 0x32, RBRACE]

  const A_FIELD: Field := DigitField([Raw(0x61)], 0x31, [Block([])])
  const B_FIELD: Field := DigitField([Raw(0x62)], 0x32, [])

  lemma ColonFields(extracts: Text -> bool)
    ensures FieldText(A_FIELD) == [QUOTE, 0x61, QUOTE, COLON, 0x31, SLASH, STAR, STAR, SLASH]
    ensures FieldText(B_FIELD) == [QUOTE, 0x62, QUOTE, COLON, 0x32]
    ensures FieldWf(A_FIELD, extracts) && FieldWf(B_FIELD, extracts) && !SpacesOnly(A_FIELD.after)
    ensures PiecesWf(A_FIELD.name) && PiecesMeaning(A_FIELD.name) == [0x61]
    ensures WithField([], A_FIELD, extracts) == [Member([0x61], Int(1))]
    ensures WithField([Member([0x61], Int(1))], B_FIELD, extracts) == [Member([0x61], Int(1)), Member([0x62], Int(2))]
  {
    hide PiecesText, PiecesMeaning, NameText, FieldText, FieldWf, WithField, GapText;
    OneByteName(0x61);
    OneByteName(0x62);
    var comment: Gap := [Block([])];
    GapsOfTheFields();
    DigitFieldRead(extracts, [Raw(0x61)], 0x31, comment, []);
    DigitFieldRead(extracts, [Raw(0x62)], 0x32, [], [Member([0x61], Int(1))]);
    assert A_FIELD.after == comment && comment[0] == Block([]) && comment[0] in comment;
  }

  lemma GapsOfTheFields()
    ensures GapText([]) == [] && GapText([Block([])]) == [SLASH, STAR, STAR, SLASH]
  {
  }

  lemma ColonSeparates()
    ensures Separates(COLON_DOCUMENT, 10, [COLON])
  {
    assert COLON_DOCUMENT[10..11] == [COLON];
    assert LexemeAt(COLON_DOCUMENT, 10, Mark(COLON)) && LexemeText(Mark(COLON)) == [COLON];
  }

  /** `{"a":1/**/:"b":2}` is accepted: behind a comment any token stands for the comma. */
  lemma ColonForComma(extracts: Text -> bool, root: Value)
    ensures var r := Parse(COLON_DOCUMENT, extracts, root);
            r.Done? && r.ok && r.value == Obj([Member([0x61], Int(1)), Member([0x62], Int(2))])
  {
    hide FieldText, WithField, FieldWf, Parse, PiecesMeaning, SpacesOnly, Separates;
    var rest := LastField(B_FIELD);
    var d := Object(MoreFields(A_FIELD, [COLON], rest));
    ColonFields(extracts);
    ColonSeparates();
    assert FieldsWf(rest, [0x61], extracts) && FieldsWithin(rest, STACK_LIMIT - 1);
    DerivedForm(extracts, A_FIELD, [COLON], rest);
    DerivedPlace(COLON_DOCUMENT, A_FIELD, [COLON], rest);
    assert TreeText(d) == COLON_DOCUMENT;
    Witness(COLON_DOCUMENT, extracts, d, root);
  }

  lemma OneByteName(b: Byte)
    requires b != QUOTE && b != BACKSLASH
    ensures PiecesWf([Raw(b)]) && PiecesMeaning([Raw(b)]) == [b] && NameText([Raw(b)]) == [QUOTE, b, QUOTE]
  {
    assert [Raw(b)][1..] == [] && PiecesText([Raw(b)]) == [b];
  }
}
