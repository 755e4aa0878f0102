/** Every document of the grammar is accepted, with its meaning, unless it is nested too deep. */
module Accepts {
  import opened Bytes
  import Decimal
  import opened Quote
  import opened StringSyntax
  import opened JsonValue
  import opened ReaderSpec
  import opened Syntax
  import opened Lexing

  // ---------- first tokens ----------

  /** Without a space or a comment in front, all three token readers read the same token. */
  lemma TokenHere(doc: Text, p: nat)
    requires p < |doc| && !IsSpace(doc[p]) && doc[p] != SLASH
    ensures SkipComments(doc, p) == NextToken(doc, p) == TokenAt(doc, p)
  {
  }

  lemma Punctuation(doc: Text, p: nat, b: Byte)
    requires At(doc, p, [b]) && b in {COMMA, COLON, LBRACKET, RBRACKET, LBRACE, RBRACE}
    ensures doc[p] == b
    ensures SkipComments(doc, p) == NextToken(doc, p) == TokenAt(doc, p) && TokenAt(doc, p).end == p + 1
    ensures TokenAt(doc, p).kind == match b
                                    case 0x2C => ArraySeparator
                                    case 0x3A => MemberSeparator
                                    case 0x5B => ArrayBegin
                                    case 0x5D => ArrayEnd
                                    case 0x7B => ObjectBegin
                                    case 0x7D => ObjectEnd
  {
    AtIndex(doc, p, [b], 0);
    TokenHere(doc, p);
  }

  lemma StringTokenAt(doc: Text, p: nat, xs: seq<Piece>)
    requires PiecesWf(xs) && At(doc, p, NameText(xs))
    ensures SkipComments(doc, p) == Token(StringToken, p, p + |NameText(xs)|)
    ensures DecodeBody(doc, p + 1, p + |NameText(xs)| - 1) == Decoded(PiecesMeaning(xs))
  {
    hide PiecesText, PiecesMeaning, PiecesWf, DecodeBody, StringEnd;
    AtSplit(doc, p, [QUOTE], PiecesText(xs) + [QUOTE]);
    AtIndex(doc, p, [QUOTE], 0);
    PiecesRead(doc, p + 1, xs);
    TokenHere(doc, p);
  }

  lemma NumberTokenAt(doc: Text, p: nat, n: Numeral)
    requires n.Wf() && At(doc, p, n.ToText()) && Bounded(doc, p, n)
    ensures SkipComments(doc, p) == Token(NumberToken, p, p + |n.ToText()|)
  {
    hide NumberEnd, Bounded;
    NumeralTaken(doc, p, n);
    TokenHere(doc, p);
  }

  lemma LiteralToken(doc: Text, p: nat, kind: TokenType, first: Byte, rest: Text)
    requires At(doc, p, [first] + rest)
    ensures p < |doc| && doc[p] == first && Literal(doc, p, kind, rest) == Token(kind, p, p + 1 + |rest|)
  {
    AtSplit(doc, p, [first], rest);
    AtIndex(doc, p, [first], 0);
  }

  lemma ConstantTokenAt(doc: Text, p: nat, t: Text)
    requires t == NULL_TEXT || t == TRUE_TEXT || t == FALSE_TEXT
    requires At(doc, p, t)
    ensures SkipComments(doc, p)
         == Token(if t == NULL_TEXT then NullToken else if t == TRUE_TEXT then TrueToken else FalseToken, p, p + |t|)
  {
    hide NumberEnd, StringEnd, CommentEnd, Matches;
    if t == NULL_TEXT {
      assert t == [LOWER_N] + ULL;
      LiteralToken(doc, p, NullToken, LOWER_N, ULL);
    } else if t == TRUE_TEXT {
      assert t == [LOWER_T] + RUE;
      LiteralToken(doc, p, TrueToken, LOWER_T, RUE);
    } else {
      assert t == [LOWER_F] + ALSE;
      LiteralToken(doc, p, FalseToken, LOWER_F, ALSE);
    }
    TokenHere(doc, p);
  }

  /** `readString` stops at the first quote that no backslash precedes. */
  lemma {:induction false} BodyTaken(doc: Text, p: nat, body: Text)
    requires StringBody(body) && At(doc, p, body + [QUOTE])
    ensures StringEnd(doc, p) == (p + |body| + 1, true)
    decreases |body|
  {
    AtIndex(doc, p, body + [QUOTE], 0);
    if body != [] {
      var k := if body[0] == BACKSLASH then 2 else 1;
      AtIndex(doc, p, body + [QUOTE], k);
      assert body + [QUOTE] == body[..k] + (body[k..] + [QUOTE]);
      AtSplit(doc, p, body[..k], body[k..] + [QUOTE]);
      BodyTaken(doc, p + k, body[k..]);
    }
  }

  lemma StringLikeTaken(doc: Text, p: nat, body: Text)
    requires StringBody(body) && At(doc, p, [QUOTE] + (body + [QUOTE]))
    ensures SkipComments(doc, p) == Token(StringToken, p, p + |body| + 2)
  {
    hide StringEnd, StringBody, At, SkipComments, NextToken;
    AtSplit(doc, p, [QUOTE], body + [QUOTE]);
    AtIndex(doc, p, [QUOTE], 0);
    BodyTaken(doc, p + 1, body);
    TokenHere(doc, p);
  }

  lemma SlashTaken(doc: Text, p: nat, b: Byte)
    requires At(doc, p, [SLASH, b]) && b != STAR && b != SLASH
    ensures SkipComments(doc, p) == Token(ErrorToken, p, p + 2)
  {
    AtIndex(doc, p, [SLASH, b], 0);
    AtIndex(doc, p, [SLASH, b], 1);
  }

  lemma LiteralFound(doc: Text, p: nat, kind: TokenType, first: Byte, rest: Text)
    requires p < |doc| && doc[p] == first && Literal(doc, p, kind, rest).kind == kind && kind != ErrorToken
    ensures At(doc, p, [first] + rest) && Literal(doc, p, kind, rest).end == p + |[first] + rest|
  {
    assert doc[p..p + 1] == [first];
    AtSplit(doc, p, [first], rest);
  }

  /** A letter that begins none of the constants is an error by itself. */
  lemma NoConstant(doc: Text, p: nat)
    requires p < |doc| && doc[p] in {LOWER_N, LOWER_T, LOWER_F}
    requires !At(doc, p, NULL_TEXT) && !At(doc, p, TRUE_TEXT) && !At(doc, p, FALSE_TEXT)
    ensures TokenAt(doc, p) == Token(ErrorToken, p, p + 1)
  {
    hide Matches, StringEnd, NumberEnd, CommentEnd;
    assert NULL_TEXT == [LOWER_N] + ULL && TRUE_TEXT == [LOWER_T] + RUE && FALSE_TEXT == [LOWER_F] + ALSE;
    if TokenAt(doc, p).kind == NullToken {
      LiteralFound(doc, p, NullToken, LOWER_N, ULL);
    } else if TokenAt(doc, p).kind == TrueToken {
      LiteralFound(doc, p, TrueToken, LOWER_T, RUE);
    } else if TokenAt(doc, p).kind == FalseToken {
      LiteralFound(doc, p, FalseToken, LOWER_F, ALSE);
    }
  }

  /** A lexeme is one token, and not a closing brace. */
  lemma LexemeTaken(doc: Text, q: nat, x: Lexeme)
    requires LexemeAt(doc, q, x)
    ensures q <= |doc|
    ensures var t := SkipComments(doc, q); t.start == q && t.end == q + |LexemeText(x)| && t.kind != ObjectEnd
  {
    hide SkipComments, TokenAt, Bounded, StringBody;
    match x
    case Mark(b) => Punctuation(doc, q, b);
    case StringLike(body) => StringLikeTaken(doc, q, body);
    case NumberLike(n) => NumberTokenAt(doc, q, n);
    case Word(text) => ConstantTokenAt(doc, q, text);
    case SlashAnd(b) => SlashTaken(doc, q, b);
    case Stray(b) =>
      AtIndex(doc, q, [b], 0);
      TokenHere(doc, q);
      if b in {LOWER_N, LOWER_T, LOWER_F} {
        NoConstant(doc, q);
      } else {
        StrayByte(doc, q);
      }
  }

  // ---------- values ----------

  /** Reading a tree of n more levels than the stack has room for throws. */
  function Expected(d: Tree, extracts: Text -> bool, nodes: nat, end: nat): Outcome
    requires Wf(d, extracts)
  {
    if Within(d, STACK_LIMIT + 1 - nodes) then Done(true, end, Meaning(d, extracts), []) else Thrown
  }

  /** A gap in front of a value changes nothing. */
  lemma GapBeforeValue(doc: Text, extracts: Text -> bool, p: nat, g: Gap, cur: Value, nodes: nat)
    requires GapWf(g) && At(doc, p, GapText(g))
    ensures ReadValue(doc, extracts, p, cur, nodes) == ReadValue(doc, extracts, p + |GapText(g)|, cur, nodes)
  {
    hide SkipComments, NextToken, ReadMembers, ReadArray, DecodeBody, NumberValue, GapText;
    GapSkipped(doc, p, g);
  }

  lemma ScalarAccepted(doc: Text, extracts: Text -> bool, p: nat, d: Tree, cur: Value, nodes: nat)
    requires Wf(d, extracts) && Holds(doc, p, d) && nodes <= STACK_LIMIT
    requires d.Constant? || d.Number? || d.String?
    ensures ReadValue(doc, extracts, p, cur, nodes) == Expected(d, extracts, nodes, p + |TreeText(d)|)
  {
    hide SkipComments, ReadMembers, ReadArray, DecodeBody, NumberValue, Bounded, PiecesWf, PiecesText;
    hide PiecesMeaning, NumberMeaning;
    match d {
      case Constant(text) => ConstantTokenAt(doc, p, text);
      case Number(n) =>
        NumberTokenAt(doc, p, n);
        NumeralDecoded(n, extracts);
        assert doc[p..p + |n.ToText()|] == n.ToText();
      case String(pieces) => StringTokenAt(doc, p, pieces);
    }
  }

  // ---------- arrays ----------

  lemma EmptyArrayAccepted(doc: Text, extracts: Text -> bool, p: nat, d: Tree, cur: Value, nodes: nat)
    requires d.EmptyArray? && Wf(d, extracts) && Holds(doc, p, d) && nodes <= STACK_LIMIT
    ensures ReadValue(doc, extracts, p, cur, nodes) == Expected(d, extracts, nodes, p + |TreeText(d)|)
  {
    hide ReadItems, ReadMembers, SkipComments, TokenAt, DecodeBody, NumberValue, SkipSpaces, GapText, GapWf;
    hide SpacesOnly, At;
    var g := d.spaces;
    var q := p + 1 + |GapText(g)|;
    AtSplit(doc, p, [LBRACKET], GapText(g) + [RBRACKET]);
    AtSplit(doc, p + 1, GapText(g), [RBRACKET]);
    Punctuation(doc, p, LBRACKET);
    Punctuation(doc, q, RBRACKET);
    GapSkipped(doc, p + 1, g);
    SkippedTwice(doc, p + 1);
    assert NextToken(doc, p + 1).start == SkipSpaces(doc, p + 1);
    assert NextToken(doc, q).start == q;
  }

  lemma {:induction false} SkippedTwice(doc: Text, p: nat)
    requires p <= |doc|
    ensures SkipSpaces(doc, SkipSpaces(doc, p)) == SkipSpaces(doc, p)
    ensures NextToken(doc, SkipSpaces(doc, p)) == NextToken(doc, p)
    ensures SkipComments(doc, SkipSpaces(doc, p)) == SkipComments(doc, p)
    decreases |doc| - p
  {
    hide TokenAt;
    if p < |doc| && IsSpace(doc[p]) {
      SkippedTwice(doc, p + 1);
      SpaceSkipped(doc, p);
    }
  }

  /** An array that does not close at once is read item by item. */
  lemma ArrayOpens(doc: Text, extracts: Text -> bool, p: nat, nodes: nat)
    requires p <= |doc| && SkipComments(doc, p).kind != ArrayEnd
    ensures ReadArray(doc, extracts, p, nodes) == ReadItems(doc, extracts, p, [], nodes)
  {
    hide ReadMembers, SkipSpaces, ReadArray, DecodeBody, NumberValue;
    var s := SkipSpaces(doc, p);
    SkippedTwice(doc, p);
    assert SkipComments(doc, s) == SkipComments(doc, p);
    hide SkipComments;
    SameStart(doc, extracts, p, s, nodes);
    ArrayBranch(doc, extracts, p, nodes);
  }

  lemma SameStart(doc: Text, extracts: Text -> bool, p: nat, s: nat, nodes: nat)
    requires p <= s <= |doc| && SkipComments(doc, s) == SkipComments(doc, p)
    ensures ReadItems(doc, extracts, p, [], nodes) == ReadItems(doc, extracts, s, [], nodes)
  {
    hide ReadMembers, ReadArray, SkipComments, DecodeBody, NumberValue;
    assert ReadValue(doc, extracts, p, Null, nodes + 1) == ReadValue(doc, extracts, s, Null, nodes + 1);
    hide ReadValue;
  }

  lemma ArrayBranch(doc: Text, extracts: Text -> bool, p: nat, nodes: nat)
    requires p <= |doc| && SkipComments(doc, p).kind != ArrayEnd
    ensures ReadArray(doc, extracts, p, nodes) == ReadItems(doc, extracts, SkipSpaces(doc, p), [], nodes)
  {
    hide ReadItems, SkipSpaces, StringEnd, NumberEnd, CommentEnd, Literal;
  }

  /** The first token of a tree closes nothing. */
  lemma TreeOpens(doc: Text, extracts: Text -> bool, p: nat, d: Tree)
    requires Wf(d, extracts) && Holds(doc, p, d)
    ensures SkipComments(doc, p).kind !in {ArrayEnd, ObjectEnd}
  {
    hide SkipComments, NextToken, TokenAt, Bounded, PiecesWf, PiecesText, GapText, ElementsText, FieldsText, DecodeBody;
    match d {
      case Constant(text) => ConstantTokenAt(doc, p, text);
      case Number(n) => NumberTokenAt(doc, p, n);
      case String(pieces) => StringTokenAt(doc, p, pieces);
      case EmptyArray(g) =>
        AtSplit(doc, p, [LBRACKET], GapText(g) + [RBRACKET]);
        Punctuation(doc, p, LBRACKET);
      case Array(es) =>
        AtSplit(doc, p, [LBRACKET], ElementsText(es));
        Punctuation(doc, p, LBRACKET);
      case Object(fs) =>
        AtSplit(doc, p, [LBRACE], FieldsText(fs));
        Punctuation(doc, p, LBRACE);
    }
  }

  function ExpectedElements(done: seq<Value>, es: Elements, extracts: Text -> bool, nodes: nat, end: nat): Outcome
    requires ElementsWf(es, extracts)
  {
    if ElementsWithin(es, STACK_LIMIT - nodes) then Done(true, end, Arr(done + ElementsMeaning(es, extracts)), [])
    else Thrown
  }

  /** One element, and the comma or bracket behind it. */
  lemma ElementStep(doc: Text, extracts: Text -> bool, p: nat, done: seq<Value>, d: Tree, e: nat, t: Token, nodes: nat)
    requires p <= e <= |doc| && Wf(d, extracts)
    requires ReadValue(doc, extracts, p, Null, nodes + 1) == Expected(d, extracts, nodes + 1, e)
    requires SkipComments(doc, e) == t && t.kind in {ArraySeparator, ArrayEnd} && p < t.end
    ensures ReadItems(doc, extracts, p, done, nodes)
         == if !Within(d, STACK_LIMIT - nodes) then Thrown
            else if t.kind == ArrayEnd then Done(true, t.end, Arr(done + [Meaning(d, extracts)]), [])
            else ReadItems(doc, extracts, t.end, done + [Meaning(d, extracts)], nodes)
  {
    hide ReadValue, SkipComments, Within, Wf, Meaning, Recover;
  }

  /** Where the parts of the first element stand. */
  lemma ElementParts(doc: Text, extracts: Text -> bool, p: nat, es: Elements)
    requires ElementsWf(es, extracts) && At(doc, p, ElementsText(es)) && ElementsSeparated(doc, p, es)
    ensures var q := p + |GapText(es.before)|; var e := q + |TreeText(es.item)|; var c := e + |GapText(es.after)|;
            && At(doc, p, GapText(es.before)) && Holds(doc, q, es.item) && At(doc, e, GapText(es.after))
            && match es
               case LastElement(_, _, _) => At(doc, c, [RBRACKET]) && p + |ElementsText(es)| == c + 1
               case MoreElements(_, _, _, rest) =>
                 At(doc, c, [COMMA]) && At(doc, c + 1, ElementsText(rest))
                     && p + |ElementsText(es)| == c + 1 + |ElementsText(rest)|
  {
    hide At, GapText, TreeText, Wf, Separated, GapWf, Bounded;
    var tail := match es
                case LastElement(_, _, _) => [RBRACKET]
                case MoreElements(_, _, _, rest) => [COMMA] + ElementsText(rest);
    var q := p + |GapText(es.before)|;
    var e := q + |TreeText(es.item)|;
    var c := e + |GapText(es.after)|;
    AtSplit(doc, p, GapText(es.before), TreeText(es.item) + (GapText(es.after) + tail));
    AtSplit(doc, q, TreeText(es.item), GapText(es.after) + tail);
    AtSplit(doc, e, GapText(es.after), tail);
    if es.MoreElements? {
      AtSplit(doc, c, [COMMA], ElementsText(es.rest));
    }
    ItemHolds(doc, q, es.item, es.after, if es.MoreElements? then COMMA else RBRACKET);
  }

  lemma ItemHolds(doc: Text, q: nat, d: Tree, g: Gap, b: Byte)
    requires At(doc, q, TreeText(d)) && Separated(doc, q, d) && GapWf(g)
    requires var e := q + |TreeText(d)|;
             At(doc, e, GapText(g)) && (g == [] ==> At(doc, e + |GapText(g)|, [b]) && EndsNumber(b))
    ensures Holds(doc, q, d)
  {
    hide TreeText, Separated, GapWf, EndsNumber, Bounded;
    var e := q + |TreeText(d)|;
    if g == [] {
      AtIndex(doc, e, [b], 0);
    }
    GapEndsNumber(doc, e, g);
    if d.Number? {
      NumberText(d);
      Ended(doc, q, d.numeral);
    }
  }

  lemma NumberText(d: Tree)
    requires d.Number?
    ensures TreeText(d) == d.numeral.ToText()
  {
  }

  // ---------- objects ----------

  /** How an object goes on behind a value: the token t closes it or stands for a comma. */
  function Onward(doc: Text, extracts: Text -> bool, t: Token, ms: seq<Member>, key: Text, nodes: nat): Outcome
    requires t.end <= |doc|
  {
    if t.kind == ObjectEnd then Done(true, t.end, Obj(ms), []) else ReadMembers(doc, extracts, t.end, ms, key, nodes)
  }

  function NameOf(f: Field): Text
    requires PiecesWf(f.name)
  {
    PiecesMeaning(f.name)
  }

  /** The tokens of a field up to its value. */
  ghost predicate Heads(doc: Text, p: nat, f: Field)
    requires PiecesWf(f.name)
  {
    var n := p + |GapText(f.before)|;
    var m := n + |NameText(f.name)|;
    var c := m + |GapText(f.spaces)|;
    && c + 1 <= |doc|
    && SkipComments(doc, p) == Token(StringToken, n, m)
    && DecodeBody(doc, n + 1, m - 1) == Decoded(NameOf(f))
    && NextToken(doc, m) == Token(MemberSeparator, c, c + 1)
    && At(doc, c + 1, GapText(f.between))
    && At(doc, ValueStart(p, f), TreeText(f.value))
    && At(doc, ValueStart(p, f) + |TreeText(f.value)|, GapText(f.after))
    && p + |FieldText(f)| == ValueStart(p, f) + |TreeText(f.value)| + |GapText(f.after)|
  }

  lemma FieldHeads(doc: Text, extracts: Text -> bool, p: nat, f: Field)
    requires FieldWf(f, extracts) && At(doc, p, FieldText(f))
    ensures Heads(doc, p, f)
  {
    hide At, GapText, NameText, TreeText, Wf, PiecesWf, PiecesMeaning, DecodeBody, SkipComments, NextToken, TokenAt;
    hide GapWf, SpacesOnly;
    var n := p + |GapText(f.before)|;
    var m := n + |NameText(f.name)|;
    var c := m + |GapText(f.spaces)|;
    var v := ValueStart(p, f);
    var tail := TreeText(f.value) + GapText(f.after);
    AtSplit(doc, p, GapText(f.before),
            NameText(f.name) + (GapText(f.spaces) + ([COLON] + (GapText(f.between) + tail))));
    AtSplit(doc, n, NameText(f.name), GapText(f.spaces) + ([COLON] + (GapText(f.between) + tail)));
    AtSplit(doc, m, GapText(f.spaces), [COLON] + (GapText(f.between) + tail));
    AtSplit(doc, c, [COLON], GapText(f.between) + tail);
    AtSplit(doc, c + 1, GapText(f.between), tail);
    AtSplit(doc, v, TreeText(f.value), GapText(f.after));
    GapSkipped(doc, p, f.before);
    StringTokenAt(doc, n, f.name);
    GapSkipped(doc, m, f.spaces);
    Punctuation(doc, c, COLON);
    ColonFits(doc, c);
  }

  lemma ColonFits(doc: Text, c: nat)
    requires At(doc, c, [COLON])
    ensures c + 1 <= |doc| && TokenAt(doc, c) == Token(MemberSeparator, c, c + 1)
  {
    AtIndex(doc, c, [COLON], 0);
  }

  /** One field, from its name at n to the end e of its value, and the token behind it. */
  lemma FieldStep(doc: Text, extracts: Text -> bool, p: nat, n: nat, m: nat, v: nat, e: nat, done: seq<Member>,
          last: Text, f: Field, nodes: nat)
    requires p <= n && n + 2 <= m < v <= e <= |doc| && FieldWf(f, extracts)
    requires SkipComments(doc, p) == Token(StringToken, n, m) && DecodeBody(doc, n + 1, m - 1) == Decoded(NameOf(f))
    requires NextToken(doc, m).kind == MemberSeparator && NextToken(doc, m).end == v
    requires NextToken(doc, e).kind in {ObjectEnd, ArraySeparator, Comment}
    requires ReadValue(doc, extracts, v, GetOrNull(done, NameOf(f)), nodes + 1)
         == Expected(f.value, extracts, nodes + 1, e)
    ensures ReadMembers(doc, extracts, p, done, last, nodes)
         == if !Within(f.value, STACK_LIMIT - nodes) then Thrown
            else Onward(doc, extracts, SkipComments(doc, e), WithField(done, f, extracts), NameOf(f), nodes)
  {
    var key := NameOf(f);
    MemberStep(doc, extracts, m, done, f, v, e, nodes);
    hide *;
    NameStep(doc, extracts, p, done, last, key, n, m, nodes);
  }

  lemma NameStep(doc: Text, extracts: Text -> bool, p: nat, done: seq<Member>, last: Text, key: Text, n: nat, m: nat,
          nodes: nat)
    requires p <= n && n + 2 <= m <= |doc| && SkipComments(doc, p) == Token(StringToken, n, m)
    requires DecodeBody(doc, n + 1, m - 1) == Decoded(key)
    ensures ReadMembers(doc, extracts, p, done, last, nodes) == ReadMember(doc, extracts, m, done, key, nodes)
  {
    hide SkipComments, DecodeBody, ReadMember;
  }

  lemma MemberStep(doc: Text, extracts: Text -> bool, m: nat, done: seq<Member>, f: Field, v: nat, e: nat, nodes: nat)
    requires m < v <= e <= |doc| && FieldWf(f, extracts)
    requires NextToken(doc, m).kind == MemberSeparator && NextToken(doc, m).end == v
    requires NextToken(doc, e).kind in {ObjectEnd, ArraySeparator, Comment}
    requires ReadValue(doc, extracts, v, GetOrNull(done, NameOf(f)), nodes + 1)
         == Expected(f.value, extracts, nodes + 1, e)
    ensures ReadMember(doc, extracts, m, done, NameOf(f), nodes)
         == if !Within(f.value, STACK_LIMIT - nodes) then Thrown
            else Onward(doc, extracts, SkipComments(doc, e), WithField(done, f, extracts), NameOf(f), nodes)
  {
    hide ReadValue, ReadMembers, TokenAt, NextToken, Within, Meaning, Put, Recover, GetOrNull, PiecesWf;
    hide PiecesMeaning, Wf;
  }

  /** What stands for a comma behind a value and its gap is taken for one. */
  lemma SeparatorTaken(doc: Text, e: nat, g: Gap, separator: Text)
    requires GapWf(g) && At(doc, e, GapText(g)) && At(doc, e + |GapText(g)|, separator)
    requires separator == [COMMA] || !SpacesOnly(g)
    requires Separates(doc, e + |GapText(g)|, separator)
    ensures e <= |doc| && NextToken(doc, e).kind in {ArraySeparator, Comment}
    ensures SkipComments(doc, e).kind != ObjectEnd && SkipComments(doc, e).end == e + |GapText(g)| + |separator|
  {
    hide GapText, TokenAt, NextToken, SkipComments, SpacesOnly, GapWf;
    GapSkipped(doc, e, g);
    var q := e + |GapText(g)|;
    if separator == [COMMA] {
      Punctuation(doc, q, COMMA);
    } else {
      var x :| LexemeAt(doc, q, x) && separator == LexemeText(x);
      LexemeTaken(doc, q, x);
    }
  }

  lemma BraceTaken(doc: Text, e: nat, g: Gap)
    requires GapWf(g) && At(doc, e, GapText(g)) && At(doc, e + |GapText(g)|, [RBRACE])
    ensures e <= |doc| && NextToken(doc, e).kind in {ObjectEnd, Comment}
    ensures SkipComments(doc, e).kind == ObjectEnd && SkipComments(doc, e).end == e + |GapText(g)| + 1
  {
    hide GapText, TokenAt, NextToken, SkipComments, SpacesOnly, GapWf;
    GapSkipped(doc, e, g);
    Punctuation(doc, e + |GapText(g)|, RBRACE);
  }

  lemma NoComment(g: Gap)
    ensures g == [] ==> SpacesOnly(g)
  {
  }

  function ExpectedFields(done: seq<Member>, fs: Fields, last: Text, extracts: Text -> bool, nodes: nat,
          end: nat): Outcome
    requires FieldsWf(fs, last, extracts)
  {
    if FieldsWithin(fs, STACK_LIMIT - nodes) then Done(true, end, Obj(FieldsMeaning(done, fs, last, extracts)), [])
    else Thrown
  }

  // ---------- trees ----------

  lemma ExpectedThrow(d: Tree, extracts: Text -> bool, nodes: nat, end: nat)
    requires Wf(d, extracts) && nodes > STACK_LIMIT
    ensures Expected(d, extracts, nodes, end) == Thrown
  {
  }

  lemma ExpectedArray(es: Elements, extracts: Text -> bool, nodes: nat, end: nat)
    requires ElementsWf(es, extracts) && nodes <= STACK_LIMIT
    ensures Wf(Array(es), extracts)
    ensures Expected(Array(es), extracts, nodes, end) == ExpectedElements([], es, extracts, nodes, end)
  {
    hide ElementsMeaning, ElementsWithin, ElementsWf;
    assert [] + ElementsMeaning(es, extracts) == ElementsMeaning(es, extracts);
  }

  lemma ExpectedObject(fs: Fields, extracts: Text -> bool, nodes: nat, end: nat)
    requires FieldsWf(fs, [], extracts) && nodes <= STACK_LIMIT
    ensures Wf(Object(fs), extracts)
    ensures Expected(Object(fs), extracts, nodes, end) == ExpectedFields([], fs, [], extracts, nodes, end)
  {
    hide FieldsMeaning, FieldsWithin, FieldsWf;
  }

  /** Reading a tree of the grammar yields its meaning and stops at its end, or throws at the limit. */
  lemma {:induction false} TreeAccepted(doc: Text, extracts: Text -> bool, p: nat, d: Tree, cur: Value, nodes: nat)
    requires Wf(d, extracts) && Holds(doc, p, d)
    ensures ReadValue(doc, extracts, p, cur, nodes) == Expected(d, extracts, nodes, p + |TreeText(d)|)
    decreases d, 4
  {
    HeldWithin(doc, p, d);
    hide *;
    if nodes > STACK_LIMIT {
      TooDeep(doc, extracts, p, cur, nodes);
      ExpectedThrow(d, extracts, nodes, p + |TreeText(d)|);
    } else {
      match d {
        case Array(es) => ArrayAccepted(doc, extracts, p, d, cur, nodes);
        case Object(fs) => ObjectAccepted(doc, extracts, p, d, cur, nodes);
        case EmptyArray(g) => EmptyArrayAccepted(doc, extracts, p, d, cur, nodes);
        case _ => ScalarAccepted(doc, extracts, p, d, cur, nodes);
      }
    }
  }

  lemma HeldWithin(doc: Text, p: nat, d: Tree)
    requires Holds(doc, p, d)
    ensures p <= |doc|
  {
  }

  lemma TooDeep(doc: Text, extracts: Text -> bool, p: nat, cur: Value, nodes: nat)
    requires p <= |doc| && nodes > STACK_LIMIT
    ensures ReadValue(doc, extracts, p, cur, nodes) == Thrown
  {
  }

  lemma ObjectBegins(doc: Text, extracts: Text -> bool, p: nat, cur: Value, nodes: nat)
    requires At(doc, p, [LBRACE]) && nodes <= STACK_LIMIT
    ensures p < |doc| && ReadValue(doc, extracts, p, cur, nodes) == ReadMembers(doc, extracts, p + 1, [], [], nodes)
  {
    hide ReadMembers, ReadArray, SkipComments, TokenAt, DecodeBody, NumberValue;
    Punctuation(doc, p, LBRACE);
    AtIndex(doc, p, [LBRACE], 0);
  }

  lemma ArrayBegins(doc: Text, extracts: Text -> bool, p: nat, cur: Value, nodes: nat)
    requires At(doc, p, [LBRACKET]) && nodes <= STACK_LIMIT
    ensures p < |doc| && ReadValue(doc, extracts, p, cur, nodes) == ReadArray(doc, extracts, p + 1, nodes)
  {
    hide ReadMembers, ReadArray, SkipComments, TokenAt, DecodeBody, NumberValue;
    Punctuation(doc, p, LBRACKET);
    AtIndex(doc, p, [LBRACKET], 0);
  }

  lemma {:induction false} ObjectAccepted(doc: Text, extracts: Text -> bool, p: nat, d: Tree, cur: Value, nodes: nat)
    requires d.Object? && Wf(d, extracts) && Holds(doc, p, d) && nodes <= STACK_LIMIT
    ensures ReadValue(doc, extracts, p, cur, nodes) == Expected(d, extracts, nodes, p + |TreeText(d)|)
    decreases d, 3
  {
    hide ReadValue, ReadMembers, At, FieldsText, FieldsWf, FieldsSeparated, ExpectedFields, Expected;
    AtSplit(doc, p, [LBRACE], FieldsText(d.fields));
    ObjectBegins(doc, extracts, p, cur, nodes);
    FieldsAccepted(doc, extracts, p + 1, [], d.fields, [], nodes);
    ExpectedObject(d.fields, extracts, nodes, p + |TreeText(d)|);
  }

  lemma {:induction false} ArrayAccepted(doc: Text, extracts: Text -> bool, p: nat, d: Tree, cur: Value, nodes: nat)
    requires d.Array? && Wf(d, extracts) && Holds(doc, p, d) && nodes <= STACK_LIMIT
    ensures ReadValue(doc, extracts, p, cur, nodes) == Expected(d, extracts, nodes, p + |TreeText(d)|)
    decreases d, 3
  {
    hide ReadValue, ReadItems, At, ElementsText, ElementsWf, ElementsSeparated, ExpectedElements, Expected;
    hide SkipComments;
    AtSplit(doc, p, [LBRACKET], ElementsText(d.elements));
    ArrayBegins(doc, extracts, p, cur, nodes);
    FirstElement(doc, extracts, p + 1, d.elements);
    ArrayOpens(doc, extracts, p + 1, nodes);
    ElementsAccepted(doc, extracts, p + 1, [], d.elements, nodes);
    ExpectedArray(d.elements, extracts, nodes, p + |TreeText(d)|);
  }

  /** What follows the opening bracket does not close the array. */
  lemma FirstElement(doc: Text, extracts: Text -> bool, p: nat, es: Elements)
    requires ElementsWf(es, extracts) && At(doc, p, ElementsText(es)) && ElementsSeparated(doc, p, es)
    ensures p <= |doc| && SkipComments(doc, p).kind != ArrayEnd
  {
    hide GapText, GapWf, Wf, Separated, ElementsText, SkipComments, Holds;
    ElementParts(doc, extracts, p, es);
    GapSkipped(doc, p, es.before);
    TreeOpens(doc, extracts, p + |GapText(es.before)|, es.item);
  }

  lemma {:induction false} ElementsAccepted(doc: Text, extracts: Text -> bool, p: nat, done: seq<Value>, es: Elements,
          nodes: nat)
    requires ElementsWf(es, extracts) && At(doc, p, ElementsText(es)) && ElementsSeparated(doc, p, es)
    ensures ReadItems(doc, extracts, p, done, nodes)
         == ExpectedElements(done, es, extracts, nodes, p + |ElementsText(es)|)
    decreases es, 1
  {
    hide ReadValue, ReadItems, At, GapText, GapWf, TreeText, ElementsText, SkipComments, NextToken, TokenAt, Holds;
    hide Within, Wf, Meaning, Separated;
    var q := p + |GapText(es.before)|;
    var e := q + |TreeText(es.item)|;
    var c := e + |GapText(es.after)|;
    ElementParts(doc, extracts, p, es);
    GapBeforeValue(doc, extracts, p, es.before, Null, nodes + 1);
    TreeAccepted(doc, extracts, q, es.item, Null, nodes + 1);
    GapSkipped(doc, e, es.after);
    Punctuation(doc, c, if es.MoreElements? then COMMA else RBRACKET);
    ElementStep(doc, extracts, p, done, es.item, e, SkipComments(doc, e), nodes);
    if es.MoreElements? {
      ElementsAccepted(doc, extracts, c + 1, done + [Meaning(es.item, extracts)], es.rest, nodes);
      assert done + ElementsMeaning(es, extracts)
          == done + [Meaning(es.item, extracts)] + ElementsMeaning(es.rest, extracts);
    }
  }

  /** A field is read, whatever the brace or separator behind it. */
  lemma {:induction false} FieldAccepted(doc: Text, extracts: Text -> bool, p: nat, done: seq<Member>, last: Text,
          f: Field, b: Byte, nodes: nat)
    requires FieldWf(f, extracts) && At(doc, p, FieldText(f)) && Separated(doc, ValueStart(p, f), f.value)
    requires f.after == [] ==> At(doc, p + |FieldText(f)|, [b]) && EndsNumber(b)
    requires NextToken(doc, ValueStart(p, f) + |TreeText(f.value)|).kind in {ObjectEnd, ArraySeparator, Comment}
    ensures ReadMembers(doc, extracts, p, done, last, nodes)
         == if !Within(f.value, STACK_LIMIT - nodes) then Thrown
            else var behind := SkipComments(doc, ValueStart(p, f) + |TreeText(f.value)|);
                 Onward(doc, extracts, behind, WithField(done, f, extracts), NameOf(f), nodes)
    decreases f, 0
  {
    hide ReadValue, ReadMembers, At, GapText, GapWf, TreeText, SkipComments, NextToken, Holds, Within, Wf, Meaning;
    hide Separated, EndsNumber, PiecesWf, PiecesMeaning, DecodeBody, Onward;
    FieldHeads(doc, extracts, p, f);
    ItemHolds(doc, ValueStart(p, f), f.value, f.after, b);
    var n := p + |GapText(f.before)|;
    var m := n + |NameText(f.name)|;
    var c := m + |GapText(f.spaces)|;
    var cur := GetOrNull(done, NameOf(f));
    GapBeforeValue(doc, extracts, c + 1, f.between, cur, nodes + 1);
    TreeAccepted(doc, extracts, ValueStart(p, f), f.value, cur, nodes + 1);
    FieldStep(doc, extracts, p, n, m, c + 1, ValueStart(p, f) + |TreeText(f.value)|, done, last, f, nodes);
  }

  lemma NoFieldAccepted(doc: Text, extracts: Text -> bool, p: nat, done: seq<Member>, g: Gap, nodes: nat)
    requires GapWf(g) && At(doc, p, GapText(g) + [RBRACE])
    ensures ReadMembers(doc, extracts, p, done, [], nodes)
         == ExpectedFields(done, NoField(g), [], extracts, nodes, p + |GapText(g)| + 1)
  {
    hide At, GapText, SkipComments, NextToken, TokenAt;
    AtSplit(doc, p, GapText(g), [RBRACE]);
    BraceTaken(doc, p, g);
  }

  lemma ExpectedStep(done: seq<Member>, fs: Fields, last: Text, extracts: Text -> bool, nodes: nat, end: nat)
    requires FieldsWf(fs, last, extracts) && !fs.NoField?
    ensures FieldWf(fs.field, extracts) && GapWf(fs.field.after) && PiecesWf(fs.field.name)
    ensures fs.MoreFields? ==> FieldsWf(fs.rest, NameOf(fs.field), extracts)
    ensures ExpectedFields(done, fs, last, extracts, nodes, end)
         == if !Within(fs.field.value, STACK_LIMIT - nodes) then Thrown
            else if fs.LastField? then Done(true, end, Obj(WithField(done, fs.field, extracts)), [])
            else ExpectedFields(WithField(done, fs.field, extracts), fs.rest, NameOf(fs.field), extracts, nodes, end)
  {
    hide Within, WithField, PiecesWf, PiecesMeaning, Wf, GapWf;
  }

  /** A field in front of the closing brace. */
  lemma {:induction false} LastFieldAccepted(doc: Text, extracts: Text -> bool, p: nat, done: seq<Member>, f: Field,
          last: Text, nodes: nat)
    requires FieldWf(f, extracts) && At(doc, p, FieldText(f) + [RBRACE]) && Separated(doc, ValueStart(p, f), f.value)
    ensures ReadMembers(doc, extracts, p, done, last, nodes)
         == if !Within(f.value, STACK_LIMIT - nodes) then Thrown
            else Done(true, p + |FieldText(f)| + 1, Obj(WithField(done, f, extracts)), [])
    decreases f, 1
  {
    hide ReadMembers, At, GapText, GapWf, TreeText, FieldText, SkipComments, NextToken, Within, Wf, Separated;
    hide PiecesWf, PiecesMeaning, SpacesOnly, WithField;
    AtSplit(doc, p, FieldText(f), [RBRACE]);
    FieldHeads(doc, extracts, p, f);
    BraceTaken(doc, ValueStart(p, f) + |TreeText(f.value)|, f.after);
    FieldAccepted(doc, extracts, p, done, last, f, RBRACE, nodes);
  }

  /** A field in front of what stands for a comma. */
  lemma {:induction false} NextFieldAccepted(doc: Text, extracts: Text -> bool, p: nat, done: seq<Member>, f: Field,
          separator: Text, last: Text, nodes: nat)
    requires FieldWf(f, extracts) && At(doc, p, FieldText(f)) && Separated(doc, ValueStart(p, f), f.value)
    requires separator == [COMMA] || !SpacesOnly(f.after)
    requires At(doc, p + |FieldText(f)|, separator) && Separates(doc, p + |FieldText(f)|, separator)
    ensures p + |FieldText(f)| + |separator| <= |doc|
    ensures ReadMembers(doc, extracts, p, done, last, nodes)
         == if !Within(f.value, STACK_LIMIT - nodes) then Thrown
            else var next := p + |FieldText(f)| + |separator|;
                 ReadMembers(doc, extracts, next, WithField(done, f, extracts), NameOf(f), nodes)
    decreases f, 1
  {
    hide ReadMembers, At, GapText, GapWf, TreeText, FieldText, SkipComments, NextToken, Within, Wf, Separated;
    hide PiecesWf, PiecesMeaning, SpacesOnly, WithField, Separates;
    FieldHeads(doc, extracts, p, f);
    SeparatorTaken(doc, ValueStart(p, f) + |TreeText(f.value)|, f.after, separator);
    NoComment(f.after);
    FieldAccepted(doc, extracts, p, done, last, f, COMMA, nodes);
  }

  lemma {:induction false} FieldsAccepted(doc: Text, extracts: Text -> bool, p: nat, done: seq<Member>, fs: Fields,
          last: Text, nodes: nat)
    requires FieldsWf(fs, last, extracts) && At(doc, p, FieldsText(fs)) && FieldsSeparated(doc, p, fs)
    ensures ReadMembers(doc, extracts, p, done, last, nodes)
         == ExpectedFields(done, fs, last, extracts, nodes, p + |FieldsText(fs)|)
    decreases fs, 2
  {
    hide ReadMembers, At, GapText, FieldText, Within, Separated, Separates, WithField, SpacesOnly, FieldWf;
    hide PiecesWf, PiecesMeaning, NameOf, ExpectedFields, GapWf;
    match fs {
      case NoField(g) => NoFieldAccepted(doc, extracts, p, done, g, nodes);
      case LastField(f) =>
        ExpectedStep(done, fs, last, extracts, nodes, p + |FieldsText(fs)|);
        LastFieldAccepted(doc, extracts, p, done, f, last, nodes);
      case MoreFields(f, separator, rest) =>
        ExpectedStep(done, fs, last, extracts, nodes, p + |FieldsText(fs)|);
        AtSplit(doc, p, FieldText(f), separator + FieldsText(rest));
        AtSplit(doc, p + |FieldText(f)|, separator, FieldsText(rest));
        NextFieldAccepted(doc, extracts, p, done, f, separator, last, nodes);
        var next := p + |FieldText(f)| + |separator|;
        FieldsAccepted(doc, extracts, next, WithField(done, f, extracts), rest, NameOf(f), nodes);
    }
  }

  // ---------- documents ----------

  /** `parse` succeeds with the meaning of the tree and no error exactly when the tree is within the stack limit. */
  lemma DocumentAccepted(doc: Text, extracts: Text -> bool, g: Gap, d: Tree, root: Value)
    requires Document(doc, extracts, g, d)
    ensures var e := |GapText(g)| + |TreeText(d)|;
            e <= |doc|
            && Parse(doc, extracts, root)
               == if Within(d, STACK_LIMIT) then Done(true, SkipComments(doc, e).end, Meaning(d, extracts), [])
                  else Thrown
  {
    hide GapText, TreeText, Wf, GapWf, Separated, Bounded, ReadValue, SkipComments, Within, Meaning;
    GapBeforeValue(doc, extracts, 0, g, root, 1);
    TreeAccepted(doc, extracts, |GapText(g)|, d, root, 1);
  }
}
