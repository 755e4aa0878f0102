/** Nothing but the documents of the grammar is accepted. */
module AcceptsOnly {
  import opened Bytes
  import Decimal
  import opened Quote
  import opened StringSyntax
  import opened JsonValue
  import opened ReaderSpec
  import opened Syntax
  import opened Lexing
  import opened Accepts

  // ---------- tokens ----------

  /** The token behind the comments is the token read at its own start. */
  lemma {:induction false} TokenStart(doc: Text, p: nat)
    requires p <= |doc|
    ensures var t := SkipComments(doc, p); t == TokenAt(doc, t.start) == SkipComments(doc, t.start)
    decreases |doc| - p
  {
    hide TokenAt;
    var t := NextToken(doc, p);
    if t.kind == Comment {
      TokenStart(doc, t.end);
    } else {
      SkippedTwice(doc, p);
    }
  }

  /** A gap and the token behind it. */
  lemma TokenFound(doc: Text, p: nat) returns (g: Gap)
    requires p <= |doc| && SkipComments(doc, p).start < |doc|
    ensures var t := SkipComments(doc, p);
            && GapWf(g) && At(doc, p, GapText(g)) && t.start == p + |GapText(g)|
            && t == TokenAt(doc, t.start) == SkipComments(doc, t.start)
            && (SpacesOnly(g) <==> NextToken(doc, p).kind != Comment)
  {
    hide *;
    TokenStart(doc, p);
    g := GapFound(doc, p);
  }

  lemma ByteAt(doc: Text, p: nat, b: Byte)
    requires p < |doc| && doc[p] == b
    ensures At(doc, p, [b])
  {
  }

  /** The byte of a punctuation token. */
  lemma PunctuationFound(doc: Text, p: nat)
    requires p < |doc|
    ensures var t := TokenAt(doc, p);
            && (t.kind == ArraySeparator ==> At(doc, p, [COMMA]) && t.end == p + 1)
            && (t.kind == MemberSeparator ==> At(doc, p, [COLON]) && t.end == p + 1)
            && (t.kind == ArrayBegin ==> At(doc, p, [LBRACKET]) && t.end == p + 1)
            && (t.kind == ArrayEnd ==> At(doc, p, [RBRACKET]) && t.end == p + 1)
            && (t.kind == ObjectBegin ==> At(doc, p, [LBRACE]) && t.end == p + 1)
            && (t.kind == ObjectEnd ==> At(doc, p, [RBRACE]) && t.end == p + 1)
  {
    hide StringEnd, NumberEnd, CommentEnd, Matches;
    assert doc[p..p + 1] == [doc[p]];
  }

  lemma StringFound(doc: Text, p: nat) returns (xs: seq<Piece>)
    requires p < |doc| && TokenAt(doc, p).kind == StringToken
         && DecodeBody(doc, p + 1, TokenAt(doc, p).end - 1).Decoded?
    ensures PiecesWf(xs) && At(doc, p, NameText(xs)) && TokenAt(doc, p).end == p + |NameText(xs)|
    ensures DecodeBody(doc, p + 1, TokenAt(doc, p).end - 1) == Decoded(PiecesMeaning(xs))
  {
    hide StringEnd, DecodeBody, NumberEnd, CommentEnd, Matches, PiecesText, PiecesMeaning, PiecesWf;
    var e := TokenAt(doc, p).end;
    assert doc[p] == QUOTE && StringEnd(doc, p + 1) == (e, true);
    xs := PiecesFound(doc, p + 1, e);
    ByteAt(doc, p, QUOTE);
    ByteAt(doc, e - 1, QUOTE);
    AtSplit(doc, p + 1, PiecesText(xs), [QUOTE]);
    AtSplit(doc, p, [QUOTE], PiecesText(xs) + [QUOTE]);
  }

  lemma ConstantFound(doc: Text, p: nat) returns (t: Text)
    requires p < |doc| && TokenAt(doc, p).kind in {TrueToken, FalseToken, NullToken}
    ensures t == match TokenAt(doc, p).kind
                 case TrueToken => TRUE_TEXT
                 case FalseToken => FALSE_TEXT
                 case _ => NULL_TEXT
    ensures At(doc, p, t) && TokenAt(doc, p).end == p + |t|
  {
    hide StringEnd, NumberEnd, CommentEnd, Matches;
    assert NULL_TEXT == [LOWER_N] + ULL && TRUE_TEXT == [LOWER_T] + RUE && FALSE_TEXT == [LOWER_F] + ALSE;
    if TokenAt(doc, p).kind == TrueToken {
      t := TRUE_TEXT;
      LiteralFound(doc, p, TrueToken, LOWER_T, RUE);
    } else if TokenAt(doc, p).kind == FalseToken {
      t := FALSE_TEXT;
      LiteralFound(doc, p, FalseToken, LOWER_F, ALSE);
    } else {
      t := NULL_TEXT;
      LiteralFound(doc, p, NullToken, LOWER_N, ULL);
    }
  }

  // ---------- scalars ----------

  /** A tree of the grammar that stands at p, and whose reading ended at e with v. */
  ghost predicate Found(doc: Text, extracts: Text -> bool, p: nat, d: Tree, e: nat, v: Value, n: int)
  {
    Wf(d, extracts) && Holds(doc, p, d) && e == p + |TreeText(d)| && v == Meaning(d, extracts) && Within(d, n)
  }

  lemma ScalarFound(doc: Text, extracts: Text -> bool, p: nat, cur: Value, nodes: nat) returns (d: Tree)
    requires p < |doc| && SkipComments(doc, p) == TokenAt(doc, p) && nodes <= STACK_LIMIT
    requires TokenAt(doc, p).kind in {NumberToken, StringToken, TrueToken, FalseToken, NullToken}
    requires var r := ReadValue(doc, extracts, p, cur, nodes); r.Done? && r.ok
    ensures var r := ReadValue(doc, extracts, p, cur, nodes);
            Found(doc, extracts, p, d, r.pos, r.value, STACK_LIMIT + 1 - nodes)
  {
    hide SkipComments, TokenAt, DecodeBody, Decimal.NumberOf, Bounded, PiecesText, PiecesMeaning, PiecesWf;
    hide ReadMembers, ReadArray;
    var t := TokenAt(doc, p);
    if t.kind == NumberToken {
      d := NumberFound(doc, extracts, p, STACK_LIMIT + 1 - nodes);
    } else if t.kind == StringToken {
      var xs := StringFound(doc, p);
      d := String(xs);
    } else {
      var text := ConstantFound(doc, p);
      d := Constant(text);
    }
  }

  lemma NumberFound(doc: Text, extracts: Text -> bool, p: nat, n: int) returns (d: Tree)
    requires n >= 1
    requires p < |doc| && TokenAt(doc, p).kind == NumberToken
    requires NumberValue(doc[p..TokenAt(doc, p).end], extracts).Some?
    ensures Found(doc, extracts, p, d, TokenAt(doc, p).end, NumberValue(doc[p..TokenAt(doc, p).end], extracts).value, n)
  {
    hide StringEnd, NumberEnd, CommentEnd, Matches, Decimal.NumberOf, Bounded;
    var numeral := NumeralFound(doc, p);
    d := Number(numeral);
    NumeralDecoded(numeral, extracts);
    assert doc[p..TokenAt(doc, p).end] == numeral.ToText();
  }

  // ---------- trees ----------

  predicate Succeeds(r: Outcome) { r.Done? && r.ok }

  /** What a successful reading of a value begins with. */
  lemma ValueBegins(doc: Text, extracts: Text -> bool, p: nat, cur: Value, nodes: nat)
    requires p <= |doc| && Succeeds(ReadValue(doc, extracts, p, cur, nodes))
    ensures var r := ReadValue(doc, extracts, p, cur, nodes);
            var t := SkipComments(doc, p);
            && nodes <= STACK_LIMIT && t.start < |doc|
            && (SkipComments(doc, t.start) == t ==> ReadValue(doc, extracts, t.start, cur, nodes) == r)
            && match t.kind
               case ObjectBegin => r == ReadMembers(doc, extracts, t.end, [], [], nodes)
               case ArrayBegin => r == ReadArray(doc, extracts, t.end, nodes)
               case _ => t.kind in {NumberToken, StringToken, TrueToken, FalseToken, NullToken}
  {
    hide SkipComments, ReadMembers, ReadArray, DecodeBody, NumberValue;
  }

  /** Every value the reader accepts is a gap and a tree of the grammar, with the meaning of the tree. */
  lemma {:induction false} TreeFound(doc: Text, extracts: Text -> bool, p: nat, cur: Value, nodes: nat)
          returns (g: Gap, d: Tree)
    requires p <= |doc| && Succeeds(ReadValue(doc, extracts, p, cur, nodes))
    ensures nodes <= STACK_LIMIT && GapWf(g) && At(doc, p, GapText(g))
    ensures var r := ReadValue(doc, extracts, p, cur, nodes);
            Found(doc, extracts, p + |GapText(g)|, d, r.pos, r.value, STACK_LIMIT + 1 - nodes)
    decreases |doc| - p, 3
  {
    hide ReadValue, SkipComments, TokenAt, ReadMembers, ReadArray, NextToken, Found, GapText, FieldsHold, GapWf;
    hide SpacesOnly, At;
    var r, t := ReadValue(doc, extracts, p, cur, nodes), SkipComments(doc, p);
    ValueBegins(doc, extracts, p, cur, nodes);
    g := TokenFound(doc, p);
    PunctuationFound(doc, t.start);
    if t.kind == ObjectBegin {
      var fs := FieldsFound(doc, extracts, t.end, [], [], nodes);
      d := Object(fs);
      ObjectComposed(doc, extracts, t.start, fs, r.pos, r.value, nodes);
    } else if t.kind == ArrayBegin {
      d := ArrayFound(doc, extracts, t.start, nodes);
    } else {
      d := ScalarFound(doc, extracts, t.start, cur, nodes);
    }
  }

  /** Where the text of the fields stands and what they mean. */
  ghost predicate FieldsHold(doc: Text, extracts: Text -> bool, p: nat, done: seq<Member>, fs: Fields, last: Text,
          e: nat, v: Value, n: int)
  {
    && FieldsWf(fs, last, extracts) && At(doc, p, FieldsText(fs)) && FieldsSeparated(doc, p, fs)
    && e == p + |FieldsText(fs)|
    && v == Obj(FieldsMeaning(done, fs, last, extracts)) && FieldsWithin(fs, n)
  }

  lemma ObjectComposed(doc: Text, extracts: Text -> bool, p: nat, fs: Fields, e: nat, v: Value, nodes: nat)
    requires At(doc, p, [LBRACE]) && nodes <= STACK_LIMIT
    requires FieldsHold(doc, extracts, p + 1, [], fs, [], e, v, STACK_LIMIT - nodes)
    ensures Found(doc, extracts, p, Object(fs), e, v, STACK_LIMIT + 1 - nodes)
  {
    hide FieldsText, FieldsMeaning, FieldsWithin, FieldsWf, FieldsSeparated, At;
    AtSplit(doc, p, [LBRACE], FieldsText(fs));
  }

  ghost predicate ElementsHold(doc: Text, extracts: Text -> bool, p: nat, done: seq<Value>, es: Elements, e: nat,
          v: Value, n: int)
  {
    && ElementsWf(es, extracts) && At(doc, p, ElementsText(es)) && ElementsSeparated(doc, p, es)
    && e == p + |ElementsText(es)|
    && v == Arr(done + ElementsMeaning(es, extracts)) && ElementsWithin(es, n)
  }

  lemma ArrayComposed(doc: Text, extracts: Text -> bool, p: nat, es: Elements, e: nat, v: Value, nodes: nat)
    requires At(doc, p, [LBRACKET]) && nodes <= STACK_LIMIT
    requires ElementsHold(doc, extracts, p + 1, [], es, e, v, STACK_LIMIT - nodes)
    ensures Found(doc, extracts, p, Array(es), e, v, STACK_LIMIT + 1 - nodes)
  {
    hide ElementsText, ElementsMeaning, ElementsWithin, ElementsWf, ElementsSeparated, At;
    AtSplit(doc, p, [LBRACKET], ElementsText(es));
    assert [] + ElementsMeaning(es, extracts) == ElementsMeaning(es, extracts);
  }

  lemma EmptyArrayFound(doc: Text, extracts: Text -> bool, p: nat, n: int) returns (d: Tree)
    requires p < |doc| && At(doc, p, [LBRACKET]) && Has(doc, SkipSpaces(doc, p + 1), {RBRACKET}) && n >= 1
    ensures Found(doc, extracts, p, d, SkipSpaces(doc, p + 1) + 1, Arr([]), n)
  {
    hide GapText, SkipSpaces, Found, GapWf, SpacesOnly, At;
    var g := SpacesFound(doc, p + 1);
    ByteAt(doc, SkipSpaces(doc, p + 1), RBRACKET);
    EmptyArrayComposed(doc, extracts, p, g, n);
    d := EmptyArray(g);
  }

  lemma EmptyArrayComposed(doc: Text, extracts: Text -> bool, p: nat, g: Gap, n: int)
    requires GapWf(g) && SpacesOnly(g) && n >= 1
    requires At(doc, p, [LBRACKET]) && At(doc, p + 1, GapText(g)) && At(doc, p + 1 + |GapText(g)|, [RBRACKET])
    ensures Found(doc, extracts, p, EmptyArray(g), p + |GapText(g)| + 2, Arr([]), n)
  {
    hide GapText, At, GapWf, SpacesOnly;
    AtSplit(doc, p + 1, GapText(g), [RBRACKET]);
    AtSplit(doc, p, [LBRACKET], GapText(g) + [RBRACKET]);
  }

  /** An array either closes behind spaces or is read item by item. */
  lemma ArrayCases(doc: Text, extracts: Text -> bool, p: nat, nodes: nat)
    requires p <= |doc|
    ensures ReadArray(doc, extracts, p, nodes)
         == if Has(doc, SkipSpaces(doc, p), {RBRACKET}) then Done(true, SkipSpaces(doc, p) + 1, Arr([]), [])
            else ReadItems(doc, extracts, p, [], nodes)
  {
    hide ReadItems, SkipComments, SkipSpaces, StringEnd, NumberEnd, CommentEnd, Literal;
    SkippedTwice(doc, p);
    SameStart(doc, extracts, p, SkipSpaces(doc, p), nodes);
  }

  lemma {:induction false} ArrayFound(doc: Text, extracts: Text -> bool, p: nat, nodes: nat) returns (d: Tree)
    requires p < |doc| && At(doc, p, [LBRACKET]) && nodes <= STACK_LIMIT
    requires Succeeds(ReadArray(doc, extracts, p + 1, nodes))
    ensures var r := ReadArray(doc, extracts, p + 1, nodes);
            Found(doc, extracts, p, d, r.pos, r.value, STACK_LIMIT + 1 - nodes)
    decreases |doc| - p, 0
  {
    hide ReadArray, ReadItems, Found, SkipSpaces, ElementsHold, At;
    var r := ReadArray(doc, extracts, p + 1, nodes);
    ArrayCases(doc, extracts, p + 1, nodes);
    if Has(doc, SkipSpaces(doc, p + 1), {RBRACKET}) {
      d := EmptyArrayFound(doc, extracts, p, STACK_LIMIT + 1 - nodes);
    } else {
      var es := ElementsFound(doc, extracts, p + 1, [], nodes);
      ArrayComposed(doc, extracts, p, es, r.pos, r.value, nodes);
      d := Array(es);
    }
  }

  /** A successful round of the loop of `readArray`. */
  lemma ItemRound(doc: Text, extracts: Text -> bool, p: nat, done: seq<Value>, nodes: nat)
    requires p <= |doc| && Succeeds(ReadItems(doc, extracts, p, done, nodes))
    ensures var v := ReadValue(doc, extracts, p, Null, nodes + 1);
            && Succeeds(v) && p <= v.pos <= |doc|
            && var t := SkipComments(doc, v.pos);
               && t.kind in {ArraySeparator, ArrayEnd} && t.start < |doc|
               && ReadItems(doc, extracts, p, done, nodes)
                  == if t.kind == ArrayEnd then Done(true, t.end, Arr(done + [v.value]), [])
                     else ReadItems(doc, extracts, t.end, done + [v.value], nodes)
  {
    hide ReadValue, SkipComments, Recover;
  }

  lemma {:induction false} ElementsFound(doc: Text, extracts: Text -> bool, p: nat, done: seq<Value>, nodes: nat)
    returns (es: Elements)
    requires p <= |doc| && Succeeds(ReadItems(doc, extracts, p, done, nodes))
    ensures var r := ReadItems(doc, extracts, p, done, nodes);
            ElementsHold(doc, extracts, p, done, es, r.pos, r.value, STACK_LIMIT - nodes)
    decreases |doc| - p, 4
  {
    hide ReadItems, ReadValue, SkipComments, NextToken, TokenAt, Found, GapText, At, ElementsHold, GapWf, SpacesOnly;
    var r := ReadItems(doc, extracts, p, done, nodes);
    ItemRound(doc, extracts, p, done, nodes);
    var v := ReadValue(doc, extracts, p, Null, nodes + 1);
    var t := SkipComments(doc, v.pos);
    var g, d := TreeFound(doc, extracts, p, Null, nodes + 1);
    var h := TokenFound(doc, v.pos);
    PunctuationFound(doc, t.start);
    if t.kind == ArrayEnd {
      es := LastElement(g, d, h);
      LastComposed(doc, extracts, p, done, es, v.pos, v.value, STACK_LIMIT - nodes);
    } else {
      var rest := ElementsFound(doc, extracts, t.end, done + [v.value], nodes);
      es := MoreElements(g, d, h, rest);
      MoreComposed(doc, extracts, p, done, es, v.pos, v.value, r.pos, r.value, STACK_LIMIT - nodes);
    }
  }

  lemma LastComposed(doc: Text, extracts: Text -> bool, p: nat, done: seq<Value>, es: Elements, e: nat, v: Value,
          n: int)
    requires es.LastElement? && GapWf(es.before) && GapWf(es.after)
    requires At(doc, p, GapText(es.before)) && At(doc, e, GapText(es.after))
         && At(doc, e + |GapText(es.after)|, [RBRACKET])
    requires Found(doc, extracts, p + |GapText(es.before)|, es.item, e, v, n)
    ensures ElementsHold(doc, extracts, p, done, es, e + |GapText(es.after)| + 1, Arr(done + [v]), n)
  {
    hide At, GapText, TreeText, Wf, GapWf, Meaning, Within, Separated, Bounded;
    var q := p + |GapText(es.before)|;
    AtSplit(doc, e, GapText(es.after), [RBRACKET]);
    AtSplit(doc, q, TreeText(es.item), GapText(es.after) + [RBRACKET]);
    AtSplit(doc, p, GapText(es.before), TreeText(es.item) + (GapText(es.after) + [RBRACKET]));
  }

  lemma MoreComposed(doc: Text, extracts: Text -> bool, p: nat, done: seq<Value>, es: Elements, e: nat, v: Value,
          end: nat, all: Value, n: int)
    requires es.MoreElements? && GapWf(es.before) && GapWf(es.after)
    requires At(doc, p, GapText(es.before)) && At(doc, e, GapText(es.after))
         && At(doc, e + |GapText(es.after)|, [COMMA])
    requires Found(doc, extracts, p + |GapText(es.before)|, es.item, e, v, n)
    requires ElementsHold(doc, extracts, e + |GapText(es.after)| + 1, done + [v], es.rest, end, all, n)
    ensures ElementsHold(doc, extracts, p, done, es, end, all, n)
  {
    hide At, GapText, TreeText, Wf, GapWf, Meaning, Within, Separated, Bounded;
    var q := p + |GapText(es.before)|;
    var c := e + |GapText(es.after)|;
    var tail := [COMMA] + ElementsText(es.rest);
    AtSplit(doc, c, [COMMA], ElementsText(es.rest));
    AtSplit(doc, e, GapText(es.after), tail);
    AtSplit(doc, q, TreeText(es.item), GapText(es.after) + tail);
    AtSplit(doc, p, GapText(es.before), TreeText(es.item) + (GapText(es.after) + tail));
    assert done + [v] + ElementsMeaning(es.rest, extracts) == done + ([v] + ElementsMeaning(es.rest, extracts));
  }

  /** A successful round of the loop of `readObject`, up to the name. */
  lemma NameRound(doc: Text, extracts: Text -> bool, p: nat, done: seq<Member>, last: Text, nodes: nat)
    requires p <= |doc| && Succeeds(ReadMembers(doc, extracts, p, done, last, nodes))
    ensures var r := ReadMembers(doc, extracts, p, done, last, nodes);
            var t := SkipComments(doc, p);
            && t.start < |doc|
            && if t.kind == ObjectEnd && last == [] then r == Done(true, t.end, Obj(done), [])
               else
                 && t.kind == StringToken
                 && var name := DecodeBody(doc, t.start + 1, t.end - 1);
                    name.Decoded? && r == ReadMember(doc, extracts, t.end, done, name.t, nodes)
  {
    hide SkipComments, ReadMember, DecodeBody, Recover;
  }

  /** The rest of that round. */
  lemma MemberRound(doc: Text, extracts: Text -> bool, m: nat, done: seq<Member>, key: Text, nodes: nat)
    requires m <= |doc| && Succeeds(ReadMember(doc, extracts, m, done, key, nodes))
    ensures var r := ReadMember(doc, extracts, m, done, key, nodes);
            var colon := NextToken(doc, m);
            && colon.kind == MemberSeparator && colon.start < |doc|
            && var v := ReadValue(doc, extracts, colon.end, GetOrNull(done, key), nodes + 1);
               && Succeeds(v) && colon.end <= v.pos <= |doc|
               && NextToken(doc, v.pos).kind in {ObjectEnd, ArraySeparator, Comment}
               && var t := SkipComments(doc, v.pos);
                  && t.start < |doc|
                  && (NextToken(doc, v.pos).kind != Comment ==> t == NextToken(doc, v.pos))
                  && r == Onward(doc, extracts, t, Put(done, key, v.value), key, nodes)
  {
    hide ReadValue, ReadMembers, TokenAt, NextToken, Put, Recover, GetOrNull;
    var colon := NextToken(doc, m);
    var v := ReadValue(doc, extracts, colon.end, GetOrNull(done, key), nodes + 1);
    if Succeeds(v) {
      NoMembersAtEnd(doc, extracts, SkipComments(doc, v.pos).end, Put(done, key, v.value), key, nodes);
    }
  }

  /** The body of a string token. */
  lemma {:induction false} BodyFound(doc: Text, p: nat) returns (body: Text)
    requires p <= |doc| && StringEnd(doc, p).1
    ensures StringBody(body) && At(doc, p, body + [QUOTE]) && StringEnd(doc, p).0 == p + |body| + 1
    decreases |doc| - p
  {
    if doc[p] == QUOTE {
      body := [];
      assert doc[p..p + 1] == [] + [QUOTE];
    } else {
      var k := if doc[p] == BACKSLASH then 2 else 1;
      var rest := BodyFound(doc, p + k);
      body := doc[p..p + k] + rest;
      assert body[k..] == rest && body + [QUOTE] == doc[p..p + k] + (rest + [QUOTE]);
      AtSplit(doc, p, doc[p..p + k], rest + [QUOTE]);
    }
  }

  lemma StringLikeFound(doc: Text, q: nat) returns (body: Text)
    requires q < |doc| && doc[q] == QUOTE && TokenAt(doc, q).end < |doc|
    ensures LexemeAt(doc, q, StringLike(body)) && TokenAt(doc, q).end == q + |body| + 2
  {
    if !StringEnd(doc, q + 1).1 {
      StringEnds(doc, q + 1);
    }
    body := BodyFound(doc, q + 1);
    ByteAt(doc, q, QUOTE);
    AtSplit(doc, q, [QUOTE], body + [QUOTE]);
  }

  /** Only the end of the document stops `readString` without a quote. */
  lemma {:induction false} StringEnds(doc: Text, p: nat)
    requires p <= |doc| && !StringEnd(doc, p).1
    ensures StringEnd(doc, p).0 == |doc|
    decreases |doc| - p
  {
    if p < |doc| {
      StringEnds(doc, if doc[p] == BACKSLASH then if p + 1 < |doc| then p + 2 else p + 1 else p + 1);
    }
  }

  lemma SlashFound(doc: Text, q: nat)
    requires q < |doc| && doc[q] == SLASH && TokenAt(doc, q).kind != Comment && TokenAt(doc, q).end < |doc|
    ensures LexemeAt(doc, q, SlashAnd(doc[q + 1])) && TokenAt(doc, q).end == q + 2
  {
    if doc[q + 1] == STAR && !CStyleEnd(doc, q + 2).1 {
      BlockEndsLate(doc, q + 2);
    }
    assert doc[q..q + 2] == [SLASH, doc[q + 1]];
  }

  lemma {:induction false} BlockEndsLate(doc: Text, q: nat)
    requires q <= |doc| && !CStyleEnd(doc, q).1
    ensures CStyleEnd(doc, q).0 == |doc|
    decreases |doc| - q
  {
    if q + 1 < |doc| {
      BlockEndsLate(doc, q + 1);
    }
  }

  /** Every token within the document but a closing brace and a comment is a lexeme. */
  lemma LexemeFound(doc: Text, q: nat) returns (x: Lexeme)
    requires q < |doc| && SkipComments(doc, q) == TokenAt(doc, q)
    requires TokenAt(doc, q).kind !in {ObjectEnd, Comment} && TokenAt(doc, q).end < |doc|
    ensures LexemeAt(doc, q, x) && TokenAt(doc, q).end == q + |LexemeText(x)|
  {
    var b := doc[q];
    NoSpaceHere(doc, q);
    ByteAt(doc, q, b);
    hide SkipComments;
    if b in {COMMA, COLON, LBRACKET, RBRACKET, LBRACE} {
      x := Mark(b);
      Punctuation(doc, q, b);
    } else if b == QUOTE {
      var body := StringLikeFound(doc, q);
      x := StringLike(body);
    } else if Decimal.IsDigit(b) || b == MINUS {
      var n := NumeralFound(doc, q);
      x := NumberLike(n);
      NumberAt(doc, q);
    } else if b == SLASH {
      SlashFound(doc, q);
      x := SlashAnd(doc[q + 1]);
    } else {
      x := OtherFound(doc, q);
    }
  }

  lemma NoSpaceHere(doc: Text, q: nat)
    requires q < |doc| && SkipComments(doc, q) == TokenAt(doc, q)
    ensures !IsSpace(doc[q])
  {
    hide TokenAt;
    if IsSpace(doc[q]) {
      SpaceSkipped(doc, q);
    }
  }

  lemma NumberAt(doc: Text, q: nat)
    requires q < |doc| && (Decimal.IsDigit(doc[q]) || doc[q] == MINUS)
    ensures TokenAt(doc, q) == Token(NumberToken, q, NumberEnd(doc, q + 1))
  {
    hide NumberEnd;
  }

  lemma BraceHere(doc: Text, q: nat)
    requires q < |doc| && doc[q] == RBRACE
    ensures TokenAt(doc, q).kind == ObjectEnd
  {
  }

  lemma OtherFound(doc: Text, q: nat) returns (x: Lexeme)
    requires q < |doc| && TokenAt(doc, q).kind != ObjectEnd && !IsSpace(doc[q]) && !Decimal.IsDigit(doc[q])
    requires doc[q] !in {COMMA, COLON, LBRACKET, RBRACKET, LBRACE, QUOTE, SLASH, MINUS}
    ensures LexemeAt(doc, q, x) && TokenAt(doc, q).end == q + |LexemeText(x)|
  {
    var b := doc[q];
    if b == RBRACE {
      BraceHere(doc, q);
    }
    ByteAt(doc, q, b);
    hide TokenAt, At;
    x := Stray(b);
    if At(doc, q, NULL_TEXT) {
      x := Word(NULL_TEXT);
      WordHere(doc, q, NULL_TEXT);
    } else if At(doc, q, TRUE_TEXT) {
      x := Word(TRUE_TEXT);
      WordHere(doc, q, TRUE_TEXT);
    } else if At(doc, q, FALSE_TEXT) {
      x := Word(FALSE_TEXT);
      WordHere(doc, q, FALSE_TEXT);
    } else if b in {LOWER_N, LOWER_T, LOWER_F} {
      NoConstant(doc, q);
    } else {
      StrayByte(doc, q);
    }
  }

  lemma WordHere(doc: Text, q: nat, text: Text)
    requires At(doc, q, text) && (text == NULL_TEXT || text == TRUE_TEXT || text == FALSE_TEXT)
    ensures TokenAt(doc, q).end == q + |text|
  {
    hide TokenAt;
    AtIndex(doc, q, text, 0);
    ConstantTokenAt(doc, q, text);
    TokenHere(doc, q);
  }

  lemma SeparatorFound(doc: Text, t: Token)
    requires t.start < |doc| && t == TokenAt(doc, t.start) == SkipComments(doc, t.start) && t.kind != ObjectEnd
    requires t.kind == ArraySeparator || t.end < |doc|
    ensures var separator := doc[t.start..t.end];
            && At(doc, t.start, separator) && Separates(doc, t.start, separator) && separator != []
            && (t.kind == ArraySeparator ==> separator == [COMMA])
  {
    hide SkipComments, TokenAt, LexemeAt;
    PunctuationFound(doc, t.start);
    if t.kind != ArraySeparator {
      var x := LexemeFound(doc, t.start);
      LexemeHolds(doc, t.start, x);
      assert doc[t.start..t.end] == LexemeText(x);
    }
  }

  lemma LexemeHolds(doc: Text, q: nat, x: Lexeme)
    requires LexemeAt(doc, q, x)
    ensures At(doc, q, LexemeText(x))
  {
  }

  lemma NoMembersAtEnd(doc: Text, extracts: Text -> bool, p: nat, done: seq<Member>, last: Text, nodes: nat)
    requires p <= |doc|
    ensures p == |doc| ==> !Succeeds(ReadMembers(doc, extracts, p, done, last, nodes))
  {
    hide TokenAt;
  }

  lemma {:induction false} FieldsFound(doc: Text, extracts: Text -> bool, p: nat, done: seq<Member>, last: Text,
          nodes: nat)
    returns (fs: Fields)
    requires p <= |doc| && Succeeds(ReadMembers(doc, extracts, p, done, last, nodes))
    ensures var r := ReadMembers(doc, extracts, p, done, last, nodes);
            FieldsHold(doc, extracts, p, done, fs, last, r.pos, r.value, STACK_LIMIT - nodes)
    decreases |doc| - p, 2
  {
    hide ReadMembers, ReadMember, ReadValue, SkipComments, NextToken, TokenAt, Found, GapText, At, FieldsHold, GapWf;
    hide SpacesOnly, DecodeBody, Put;
    hide PiecesText, PiecesMeaning, PiecesWf;
    var r := ReadMembers(doc, extracts, p, done, last, nodes);
    var t := SkipComments(doc, p);
    NameRound(doc, extracts, p, done, last, nodes);
    var g := TokenFound(doc, p);
    if t.kind == ObjectEnd {
      PunctuationFound(doc, t.start);
      fs := NoField(g);
      NoFieldComposed(doc, extracts, p, done, g, STACK_LIMIT - nodes);
    } else {
      var xs := StringFound(doc, t.start);
      fs := FieldFound(doc, extracts, p, done, last, g, xs, t.end, nodes);
    }
  }

  lemma NoFieldComposed(doc: Text, extracts: Text -> bool, p: nat, done: seq<Member>, g: Gap, n: int)
    requires GapWf(g) && At(doc, p, GapText(g)) && At(doc, p + |GapText(g)|, [RBRACE])
    ensures FieldsHold(doc, extracts, p, done, NoField(g), [], p + |GapText(g)| + 1, Obj(done), n)
  {
    hide At, GapText, GapWf;
    AtSplit(doc, p, GapText(g), [RBRACE]);
  }

  /** A field and the fields behind it, from the end m of its name. */
  lemma {:induction false} FieldFound(doc: Text, extracts: Text -> bool, p: nat, done: seq<Member>, last: Text,
          g: Gap, xs: seq<Piece>, m: nat, nodes: nat)
    returns (fs: Fields)
    requires GapWf(g) && At(doc, p, GapText(g)) && PiecesWf(xs) && At(doc, p + |GapText(g)|, NameText(xs))
    requires m == p + |GapText(g)| + |NameText(xs)| && m <= |doc|
    requires Succeeds(ReadMember(doc, extracts, m, done, PiecesMeaning(xs), nodes))
    ensures var r := ReadMember(doc, extracts, m, done, PiecesMeaning(xs), nodes);
            FieldsHold(doc, extracts, p, done, fs, last, r.pos, r.value, STACK_LIMIT - nodes)
    decreases |doc| - p, 1
  {
    hide ReadMembers, ReadMember, ReadValue, SkipComments, TokenAt, NextToken, GapText, At, FieldsHold, GapWf, Put;
    hide SpacesOnly, NameText, PiecesText, PiecesMeaning, PiecesWf, GetOrNull, FieldHolds, FieldText, Separates;
    var key := PiecesMeaning(xs);
    MemberRound(doc, extracts, m, done, key, nodes);
    var v := ReadValue(doc, extracts, NextToken(doc, m).end, GetOrNull(done, key), nodes + 1);
    var t := SkipComments(doc, v.pos);
    var f := FieldBehind(doc, extracts, p, done, g, xs, m, nodes);
    PunctuationFound(doc, t.start);
    if t.kind == ObjectEnd {
      fs := LastField(f);
      LastFieldComposed(doc, extracts, p, done, last, f, v.value, STACK_LIMIT - nodes);
    } else {
      var separator := doc[t.start..t.end];
      NoMembersAtEnd(doc, extracts, t.end, Put(done, key, v.value), key, nodes);
      SeparatorFound(doc, t);
      var rest := FieldsFound(doc, extracts, t.end, Put(done, key, v.value), key, nodes);
      fs := MoreFields(f, separator, rest);
      var r := ReadMembers(doc, extracts, t.end, Put(done, key, v.value), key, nodes);
      MoreFieldsComposed(doc, extracts, p, done, last, fs, v.value, r.pos, r.value, STACK_LIMIT - nodes);
    }
  }

  /** The field whose name ends at m, when its value is read and a token stands behind it. */
  lemma {:induction false} FieldBehind(doc: Text, extracts: Text -> bool, p: nat, done: seq<Member>, g: Gap,
          xs: seq<Piece>, m: nat, nodes: nat)
    returns (f: Field)
    requires GapWf(g) && At(doc, p, GapText(g)) && PiecesWf(xs) && At(doc, p + |GapText(g)|, NameText(xs))
    requires m == p + |GapText(g)| + |NameText(xs)| && m <= |doc|
    requires NextToken(doc, m).kind == MemberSeparator && NextToken(doc, m).start < |doc|
    requires var v := ReadValue(doc, extracts, NextToken(doc, m).end, GetOrNull(done, PiecesMeaning(xs)), nodes + 1);
             Succeeds(v) && v.pos <= |doc| && SkipComments(doc, v.pos).start < |doc|
    ensures var v := ReadValue(doc, extracts, NextToken(doc, m).end, GetOrNull(done, PiecesMeaning(xs)), nodes + 1);
            var t := SkipComments(doc, v.pos);
            && f.name == xs && FieldHolds(doc, extracts, p, f, v.value, STACK_LIMIT - nodes)
            && t.start == p + |FieldText(f)| && t == TokenAt(doc, t.start) == SkipComments(doc, t.start)
            && (SpacesOnly(f.after) <==> NextToken(doc, v.pos).kind != Comment)
    decreases |doc| - p, 0
  {
    hide ReadValue, SkipComments, TokenAt, Found, GapText, At, FieldHolds, GapWf, SpacesOnly, NameText, FieldText;
    hide PiecesText, PiecesMeaning, PiecesWf, GetOrNull, SkipSpaces;
    var colon := NextToken(doc, m);
    var cur := GetOrNull(done, PiecesMeaning(xs));
    var v := ReadValue(doc, extracts, colon.end, cur, nodes + 1);
    var spaces := SpacesFound(doc, m);
    PunctuationFound(doc, colon.start);
    var between, d := TreeFound(doc, extracts, colon.end, cur, nodes + 1);
    var after := TokenFound(doc, v.pos);
    f := Field(g, xs, spaces, between, d, after);
    FieldComposed(doc, extracts, p, f, m, colon.start, v.pos, v.value, STACK_LIMIT - nodes);
  }

  /** A field of the grammar stands at p, and its value is v. */
  ghost predicate FieldHolds(doc: Text, extracts: Text -> bool, p: nat, f: Field, v: Value, n: int)
  {
    && FieldWf(f, extracts) && At(doc, p, FieldText(f)) && Separated(doc, ValueStart(p, f), f.value)
    && v == Meaning(f.value, extracts) && Within(f.value, n)
  }

  lemma FieldComposed(doc: Text, extracts: Text -> bool, p: nat, f: Field, m: nat, c: nat, e: nat, v: Value, n: int)
    requires GapWf(f.before) && PiecesWf(f.name) && GapWf(f.spaces) && SpacesOnly(f.spaces) && GapWf(f.between)
         && GapWf(f.after)
    requires m == p + |GapText(f.before)| + |NameText(f.name)| && c == m + |GapText(f.spaces)|
    requires At(doc, p, GapText(f.before)) && At(doc, p + |GapText(f.before)|, NameText(f.name))
    requires At(doc, m, GapText(f.spaces)) && At(doc, c, [COLON]) && At(doc, c + 1, GapText(f.between))
         && At(doc, e, GapText(f.after))
    requires Found(doc, extracts, c + 1 + |GapText(f.between)|, f.value, e, v, n)
    ensures FieldHolds(doc, extracts, p, f, v, n) && p + |FieldText(f)| == e + |GapText(f.after)|
  {
    hide At, GapText, NameText, TreeText, Wf, PiecesWf, GapWf, SpacesOnly, Separated, Bounded, Meaning, Within;
    var q := p + |GapText(f.before)|;
    var w := c + 1 + |GapText(f.between)|;
    var tail := TreeText(f.value) + GapText(f.after);
    AtSplit(doc, w, TreeText(f.value), GapText(f.after));
    AtSplit(doc, c + 1, GapText(f.between), tail);
    AtSplit(doc, c, [COLON], GapText(f.between) + tail);
    AtSplit(doc, m, GapText(f.spaces), [COLON] + (GapText(f.between) + tail));
    AtSplit(doc, q, NameText(f.name), GapText(f.spaces) + ([COLON] + (GapText(f.between) + tail)));
    AtSplit(doc, p, GapText(f.before),
            NameText(f.name) + (GapText(f.spaces) + ([COLON] + (GapText(f.between) + tail))));
  }

  lemma LastFieldComposed(doc: Text, extracts: Text -> bool, p: nat, done: seq<Member>, last: Text, f: Field,
          v: Value, n: int)
    requires FieldHolds(doc, extracts, p, f, v, n) && At(doc, p + |FieldText(f)|, [RBRACE])
    ensures PiecesWf(f.name)
    ensures FieldsHold(doc, extracts, p, done, LastField(f), last, p + |FieldText(f)| + 1,
            Obj(Put(done, PiecesMeaning(f.name), v)), n)
  {
    hide At, FieldText, Wf, PiecesWf, GapWf, SpacesOnly, Separated, Meaning, Within, Put;
    AtSplit(doc, p, FieldText(f), [RBRACE]);
    assert FieldsWf(LastField(f), last, extracts)
        && WithField(done, f, extracts) == Put(done, PiecesMeaning(f.name), v);
  }

  lemma MoreFieldsComposed(doc: Text, extracts: Text -> bool, p: nat, done: seq<Member>, last: Text, fs: Fields,
          v: Value, end: nat, all: Value, n: int)
    requires fs.MoreFields? && FieldHolds(doc, extracts, p, fs.field, v, n) && PiecesWf(fs.field.name)
    requires var q := p + |FieldText(fs.field)|; At(doc, q, fs.separator) && Separates(doc, q, fs.separator)
    requires fs.separator == [COMMA] || (fs.separator != [] && !SpacesOnly(fs.field.after))
    requires FieldsHold(doc, extracts, p + |FieldText(fs.field)| + |fs.separator|,
                        Put(done, PiecesMeaning(fs.field.name), v), fs.rest, PiecesMeaning(fs.field.name), end, all, n)
    ensures FieldsHold(doc, extracts, p, done, fs, last, end, all, n)
  {
    hide At, FieldText, Wf, PiecesWf, PiecesMeaning, GapWf, SpacesOnly, Separated, Separates, Meaning, Within, Put;
    var q := p + |FieldText(fs.field)|;
    AtSplit(doc, q, fs.separator, FieldsText(fs.rest));
    AtSplit(doc, p, FieldText(fs.field), fs.separator + FieldsText(fs.rest));
    assert FieldsWf(fs, last, extracts)
        && WithField(done, fs.field, extracts) == Put(done, PiecesMeaning(fs.field.name), v);
  }

  // ---------- documents ----------

  /**
   * `parse` accepts exactly the documents of the grammar that are nested within the stack limit,
   * and yields exactly their meaning.
   */
  lemma DocumentsAccepted(doc: Text, extracts: Text -> bool, root: Value, v: Value)
    ensures var r := Parse(doc, extracts, root);
            (r.Done? && r.ok && r.value == v)
            <==> exists g, d :: Document(doc, extracts, g, d) && Within(d, STACK_LIMIT) && Meaning(d, extracts) == v
  {
    hide Holds, ReadValue, SkipComments, Within, Meaning, Wf;
    var r := Parse(doc, extracts, root);
    if r.Done? && r.ok && r.value == v {
      var g, d := DocumentFound(doc, extracts, root);
    }
    if g, d :| Document(doc, extracts, g, d) && Within(d, STACK_LIMIT) && Meaning(d, extracts) == v {
      DocumentAccepted(doc, extracts, g, d, root);
    }
  }

  lemma DocumentFound(doc: Text, extracts: Text -> bool, root: Value) returns (g: Gap, d: Tree)
    requires Succeeds(Parse(doc, extracts, root))
    ensures Document(doc, extracts, g, d) && Within(d, STACK_LIMIT)
    ensures Meaning(d, extracts) == Parse(doc, extracts, root).value
  {
    hide Holds, ReadValue, SkipComments, Within, Meaning, Wf;
    g, d := TreeFound(doc, extracts, 0, root, 1);
  }

  /** A document means one value, however it is derived. */
  lemma Unambiguous(doc: Text, extracts: Text -> bool, g: Gap, d: Tree, h: Gap, e: Tree)
    requires Document(doc, extracts, g, d) && Within(d, STACK_LIMIT)
    requires Document(doc, extracts, h, e) && Within(e, STACK_LIMIT)
    ensures Meaning(d, extracts) == Meaning(e, extracts)
  {
    hide Holds, Parse, SkipComments, Within, Meaning, Wf;
    DocumentAccepted(doc, extracts, g, d, Null);
    DocumentAccepted(doc, extracts, h, e, Null);
  }
}
