/**
 * How the reader ends on every document, malformed ones included: with a value, at the stack limit,
 * or with one error, which one and where.
 */
module Outcomes {
  import opened Options
  import opened Bytes
  import opened Quote
  import opened StringSyntax
  import opened JsonValue
  import opened ReaderSpec
  import opened Syntax
  import opened Lexing
  import opened Accepts
  import opened AcceptsOnly

  /** Elements, each with the comma behind it. */
  datatype Elems = NoElems | Elem(before: Gap, item: Tree, after: Gap, rest: Elems)

  /** Fields, each with what stands for the comma behind it. */
  datatype Flds = NoFlds | Fld(field: Field, separator: Text, rest: Flds)

  /** A name and its colon. */
  datatype Head = Head(before: Gap, name: seq<Piece>, spaces: Gap)

  /**
   * Brackets and braces opened one inside the other, with what is complete at each level, and how
   * far the innermost level has come.
   */
  datatype Spine =
    | Here
    | InArray(gap: Gap, elems: Elems, array: ArrayRest)
    | InObject(gap: Gap, flds: Flds, object: ObjectRest)

  datatype ArrayRest = ItemOpen(inner: Spine) | ItemRead(before: Gap, item: Tree)

  datatype ObjectRest =
    | NoName
    | NameRead(before: Gap, name: seq<Piece>)
    | ValueOpen(head: Head, inner: Spine)
    | ValueRead(head: Head, between: Gap, value: Tree)

  /** What is due where the reader stops; before a name, with the last name read. */
  datatype Place =
    | ValueDue
    | NameDue(last: Text)
    | ColonDue
    | MemberEndDue
    | ItemEndDue

  /** A place, where it is, and how many values are under construction there. */
  datatype Stop = Stop(place: Place, at: nat, nodes: nat)

  /** How many values a spine opens. */
  function Levels(s: Spine): nat
  {
    match s
    case InArray(_, _, ItemOpen(inner)) => 1 + Levels(inner)
    case InObject(_, _, ValueOpen(_, inner)) => 1 + Levels(inner)
    case _ => 0
  }

  function ElemsLength(es: Elems): nat
  {
    match es
    case NoElems => 0
    case Elem(before, item, after, rest) =>
      |GapText(before)| + |TreeText(item)| + |GapText(after)| + 1 + ElemsLength(rest)
  }

  function FldsLength(fs: Flds): nat
  {
    match fs
    case NoFlds => 0
    case Fld(field, separator, rest) => |FieldText(field)| + |separator| + FldsLength(rest)
  }

  /** The name of the last field. */
  function LastName(fs: Flds, last: Text): Text
  {
    match fs
    case NoFlds => last
    case Fld(f, _, rest) => LastName(rest, if PiecesWf(f.name) then PiecesMeaning(f.name) else [])
  }

  /** The colon of a name that begins at p. */
  function ColonOf(p: nat, h: Head): nat { p + |GapText(h.before)| + |NameText(h.name)| + |GapText(h.spaces)| }

  /** The document holds the elements at p, none of them nested deeper than n levels. */
  ghost predicate ElemsAt(doc: Text, extracts: Text -> bool, p: nat, es: Elems, n: int)
    decreases es
  {
    match es
    case NoElems => true
    case Elem(before, item, after, rest) =>
      var q := p + |GapText(before)|;
      var e := q + |TreeText(item)|;
      var c := e + |GapText(after)|;
      && GapWf(before) && GapWf(after) && Wf(item, extracts) && Within(item, n)
      && At(doc, p, GapText(before)) && Holds(doc, q, item) && At(doc, e, GapText(after)) && At(doc, c, [COMMA])
      && ElemsAt(doc, extracts, c + 1, rest, n)
  }

  /** A field and what stands for the comma behind it. */
  ghost predicate FldAt(doc: Text, extracts: Text -> bool, p: nat, f: Field, separator: Text, n: int)
  {
    var q := p + |FieldText(f)|;
    && FieldWf(f, extracts) && At(doc, p, FieldText(f)) && Separated(doc, ValueStart(p, f), f.value)
    && Within(f.value, n)
    && At(doc, q, separator) && Separates(doc, q, separator)
    && (separator == [COMMA] || (separator != [] && !SpacesOnly(f.after)))
  }

  ghost predicate FldsAt(doc: Text, extracts: Text -> bool, p: nat, fs: Flds, n: int)
    decreases fs
  {
    match fs
    case NoFlds => true
    case Fld(f, separator, rest) =>
      FldAt(doc, extracts, p, f, separator, n) && FldsAt(doc, extracts, p + |FieldText(f)| + |separator|, rest, n)
  }

  ghost predicate NameAt(doc: Text, p: nat, before: Gap, name: seq<Piece>)
  {
    && GapWf(before) && PiecesWf(name) && At(doc, p, GapText(before)) && At(doc, p + |GapText(before)|, NameText(name))
  }

  ghost predicate HeadAt(doc: Text, p: nat, h: Head)
  {
    && NameAt(doc, p, h.before, h.name) && GapWf(h.spaces) && SpacesOnly(h.spaces)
    && At(doc, p + |GapText(h.before)| + |NameText(h.name)|, GapText(h.spaces)) && At(doc, ColonOf(p, h), [COLON])
  }

  /** A gap and a value of at most n levels that ends at e. */
  ghost predicate ValueAt(doc: Text, extracts: Text -> bool, p: nat, g: Gap, d: Tree, n: int, e: nat)
  {
    && GapWf(g) && At(doc, p, GapText(g)) && Wf(d, extracts) && Holds(doc, p + |GapText(g)|, d) && Within(d, n)
    && e == p + |GapText(g)| + |TreeText(d)|
  }

  /**
   * From p on, and with `nodes` values under construction, the document opens the spine and comes to
   * the stop. An array that closes at once holds no value.
   */
  ghost predicate Leads(doc: Text, extracts: Text -> bool, p: nat, s: Spine, nodes: nat, to: Stop)
    decreases s
  {
    match s
    case Here => to == Stop(ValueDue, p, nodes) && p <= |doc|
    case InArray(gap, elems, rest) =>
      var q := p + |GapText(gap)|;
      var e := q + 1 + ElemsLength(elems);
      && nodes <= STACK_LIMIT && GapWf(gap) && At(doc, p, GapText(gap)) && At(doc, q, [LBRACKET])
      && ElemsAt(doc, extracts, q + 1, elems, STACK_LIMIT - nodes)
      && (elems.NoElems? ==> e <= |doc| && !Has(doc, SkipSpaces(doc, e), {RBRACKET}))
      && ArrayLeads(doc, extracts, e, rest, nodes, to)
    case InObject(gap, flds, rest) =>
      var q := p + |GapText(gap)|;
      var e := q + 1 + FldsLength(flds);
      && nodes <= STACK_LIMIT && GapWf(gap) && At(doc, p, GapText(gap)) && At(doc, q, [LBRACE])
      && FldsAt(doc, extracts, q + 1, flds, STACK_LIMIT - nodes)
      && ObjectLeads(doc, extracts, e, LastName(flds, []), rest, nodes, to)
  }

  ghost predicate ArrayLeads(doc: Text, extracts: Text -> bool, e: nat, rest: ArrayRest, nodes: nat, to: Stop)
    decreases rest
  {
    match rest
    case ItemOpen(inner) => Leads(doc, extracts, e, inner, nodes + 1, to)
    case ItemRead(before, item) =>
      to == Stop(ItemEndDue, to.at, nodes) && ValueAt(doc, extracts, e, before, item, STACK_LIMIT - nodes, to.at)
  }

  ghost predicate ObjectLeads(doc: Text, extracts: Text -> bool, e: nat, last: Text, rest: ObjectRest, nodes: nat,
          to: Stop)
    decreases rest
  {
    match rest
    case NoName => to == Stop(NameDue(last), e, nodes) && e <= |doc|
    case NameRead(before, name) =>
      to == Stop(ColonDue, e + |GapText(before)| + |NameText(name)|, nodes) && NameAt(doc, e, before, name)
    case ValueOpen(head, inner) =>
      HeadAt(doc, e, head) && Leads(doc, extracts, ColonOf(e, head) + 1, inner, nodes + 1, to)
    case ValueRead(head, between, value) =>
      && to == Stop(MemberEndDue, to.at, nodes) && HeadAt(doc, e, head)
      && ValueAt(doc, extracts, ColonOf(e, head) + 1, between, value, STACK_LIMIT - nodes, to.at)
  }

  // ---------- what is not what is due ----------

  /** The error at a place where the document has something else than is due there. */
  function Refusal(doc: Text, extracts: Text -> bool, place: Place, at: nat): Option<ErrorInfo>
    requires at <= |doc|
  {
    match place
    case ValueDue =>
      var t := SkipComments(doc, at);
      if t.kind in {ObjectBegin, ArrayBegin, TrueToken, FalseToken, NullToken} then None
      else if t.kind == NumberToken then
        if NumberValue(doc[t.start..t.end], extracts).Some? then None else Some(ErrorInfo(NotANumber, t, None))
      else if t.kind == StringToken then Misspelt(doc, t)
      else Some(ErrorInfo(ValueExpected, t, None))
    case NameDue(last) =>
      var t := SkipComments(doc, at);
      if t.kind == StringToken then Misspelt(doc, t)
      else if t.kind == ObjectEnd && last == [] then None
      else Some(ErrorInfo(MissingBraceOrName, t, None))
    case ColonDue =>
      var t := NextToken(doc, at);
      if t.kind == MemberSeparator then None else Some(ErrorInfo(MissingColon, t, None))
    case MemberEndDue =>
      var t := NextToken(doc, at);
      var behind := SkipComments(doc, at);
      if t.kind !in {ArraySeparator, ObjectEnd, Comment} then Some(ErrorInfo(MissingCommaOrBrace, t, None))
      else if t.kind == Comment && behind.kind != ObjectEnd && behind.end == |doc| then
        Some(ErrorInfo(MissingBraceOrName, Token(EndOfStream, |doc|, |doc|), None))
      else None
    case ItemEndDue =>
      var t := SkipComments(doc, at);
      if t.kind in {ArraySeparator, ArrayEnd} then None else Some(ErrorInfo(MissingCommaOrBracket, t, None))
  }

  /** The error of a string that cannot be decoded. */
  function Misspelt(doc: Text, t: Token): Option<ErrorInfo>
    requires t.start + 2 <= t.end <= |doc|
  {
    match DecodeBody(doc, t.start + 1, t.end - 1)
    case Decoded(_) => None
    case Undecodable(kind, at) => Some(ErrorInfo(InString(kind), t, Some(at)))
  }

  datatype Verdict = Throws | Reports(error: ErrorInfo)

  /** How the reader ends at the stop, when it goes no further: the stack limit comes first. */
  function VerdictAt(doc: Text, extracts: Text -> bool, to: Stop): Option<Verdict>
  {
    if to.at > |doc| then None
    else if to.place == ValueDue && to.nodes > STACK_LIMIT then Some(Throws)
    else
      match Refusal(doc, extracts, to.place, to.at)
      case None => None
      case Some(error) => Some(Reports(error))
  }

  predicate Ends(r: Outcome, v: Verdict)
  {
    match v
    case Throws => r == Thrown
    case Reports(error) => r.Done? && !r.ok && r.errors == [error]
  }

  lemma {:induction false} SpineLevels(doc: Text, extracts: Text -> bool, p: nat, s: Spine, nodes: nat, to: Stop)
    requires Leads(doc, extracts, p, s, nodes, to)
    ensures to.nodes == nodes + Levels(s)
    decreases s
  {
    hide At, GapText, GapWf, ElemsAt, FldsAt, HeadAt, NameAt, ValueAt, SkipSpaces;
    match s
    case InArray(gap, elems, ItemOpen(inner)) =>
      SpineLevels(doc, extracts, p + |GapText(gap)| + 1 + ElemsLength(elems), inner, nodes + 1, to);
    case InObject(gap, flds, ValueOpen(head, inner)) =>
      SpineLevels(doc, extracts, ColonOf(p + |GapText(gap)| + 1 + FldsLength(flds), head) + 1, inner, nodes + 1, to);
    case _ =>
  }

  // ---------- a spine and its stop end the reading ----------

  /** Complete elements are read. */
  lemma {:induction false} ElemsPassed(doc: Text, extracts: Text -> bool, p: nat, done: seq<Value>, es: Elems,
          nodes: nat)
    returns (more: seq<Value>)
    requires ElemsAt(doc, extracts, p, es, STACK_LIMIT - nodes) && p <= |doc|
    ensures p + ElemsLength(es) <= |doc|
    ensures ReadItems(doc, extracts, p, done, nodes) == ReadItems(doc, extracts, p + ElemsLength(es), more, nodes)
    decreases es
  {
    hide ReadItems, ReadValue, At, GapText, TreeText, GapWf, Wf, Holds, Within, Meaning, SkipComments, NextToken;
    hide TokenAt;
    more := done;
    if es.Elem? {
      var q := p + |GapText(es.before)|;
      var e := q + |TreeText(es.item)|;
      var c := e + |GapText(es.after)|;
      GapBeforeValue(doc, extracts, p, es.before, Null, nodes + 1);
      TreeAccepted(doc, extracts, q, es.item, Null, nodes + 1);
      GapSkipped(doc, e, es.after);
      Punctuation(doc, c, COMMA);
      AtEnds(doc, e, GapText(es.after));
      ElementStep(doc, extracts, p, done, es.item, e, SkipComments(doc, e), nodes);
      more := ElemsPassed(doc, extracts, c + 1, done + [Meaning(es.item, extracts)], es.rest, nodes);
    }
  }

  lemma FldPassed(doc: Text, extracts: Text -> bool, p: nat, done: seq<Member>, f: Field, separator: Text, last: Text,
          nodes: nat)
    returns (more: seq<Member>)
    requires FldAt(doc, extracts, p, f, separator, STACK_LIMIT - nodes)
    ensures p + |FieldText(f)| + |separator| <= |doc|
    ensures PiecesWf(f.name) && p <= |doc|
    ensures ReadMembers(doc, extracts, p, done, last, nodes)
         == ReadMembers(doc, extracts, p + |FieldText(f)| + |separator|, more, PiecesMeaning(f.name), nodes)
  {
    hide ReadMembers, At, FieldText, Separated, Separates, Within, SpacesOnly, PiecesMeaning, WithField, Wf, GapWf;
    hide PiecesWf;
    NextFieldAccepted(doc, extracts, p, done, f, separator, last, nodes);
    AtEnds(doc, p, FieldText(f));
    more := WithField(done, f, extracts);
  }

  /** Complete fields are read. */
  lemma {:induction false} FldsPassed(doc: Text, extracts: Text -> bool, p: nat, done: seq<Member>, fs: Flds,
          last: Text, nodes: nat)
    returns (more: seq<Member>)
    requires FldsAt(doc, extracts, p, fs, STACK_LIMIT - nodes) && p <= |doc|
    ensures p + FldsLength(fs) <= |doc|
    ensures ReadMembers(doc, extracts, p, done, last, nodes)
         == ReadMembers(doc, extracts, p + FldsLength(fs), more, LastName(fs, last), nodes)
    decreases fs
  {
    hide ReadMembers, FldAt, FieldText, PiecesWf, PiecesMeaning;
    more := done;
    if fs.Fld? {
      more := FldPassed(doc, extracts, p, done, fs.field, fs.separator, last, nodes);
      var next, name := p + |FieldText(fs.field)| + |fs.separator|, PiecesMeaning(fs.field.name);
      more := FldsPassed(doc, extracts, next, more, fs.rest, name, nodes);
    }
  }

  lemma HereEnds(doc: Text, extracts: Text -> bool, p: nat, cur: Value, nodes: nat, v: Verdict)
    requires VerdictAt(doc, extracts, Stop(ValueDue, p, nodes)) == Some(v)
    ensures p <= |doc| && Ends(ReadValue(doc, extracts, p, cur, nodes), v)
  {
    hide SkipComments, ReadMembers, ReadArray, DecodeBody, NumberValue;
  }

  lemma ItemEnds(doc: Text, extracts: Text -> bool, p: nat, done: seq<Value>, nodes: nat, v: Verdict)
    requires p <= |doc| && Ends(ReadValue(doc, extracts, p, Null, nodes + 1), v)
    ensures Ends(ReadItems(doc, extracts, p, done, nodes), v)
  {
    hide ReadValue, Recover;
  }

  lemma NoItemEnd(doc: Text, extracts: Text -> bool, p: nat, done: seq<Value>, e: nat, x: Value, nodes: nat, v: Verdict)
    requires p <= e <= |doc| && ReadValue(doc, extracts, p, Null, nodes + 1) == Done(true, e, x, [])
    requires VerdictAt(doc, extracts, Stop(ItemEndDue, e, nodes)) == Some(v)
    ensures Ends(ReadItems(doc, extracts, p, done, nodes), v)
  {
    hide ReadValue, Recover, SkipComments;
  }

  lemma NoNameEnds(doc: Text, extracts: Text -> bool, p: nat, done: seq<Member>, last: Text, nodes: nat, v: Verdict)
    requires VerdictAt(doc, extracts, Stop(NameDue(last), p, nodes)) == Some(v)
    ensures p <= |doc| && Ends(ReadMembers(doc, extracts, p, done, last, nodes), v)
  {
    hide SkipComments, DecodeBody, ReadMember, Recover;
  }

  lemma NoColonEnds(doc: Text, extracts: Text -> bool, m: nat, done: seq<Member>, key: Text, nodes: nat, v: Verdict)
    requires VerdictAt(doc, extracts, Stop(ColonDue, m, nodes)) == Some(v)
    ensures m <= |doc| && Ends(ReadMember(doc, extracts, m, done, key, nodes), v)
  {
    hide NextToken, ReadValue, ReadComma, Recover;
  }

  lemma MemberEnds(doc: Text, extracts: Text -> bool, m: nat, done: seq<Member>, key: Text, nodes: nat, v: Verdict)
    requires m <= |doc| && NextToken(doc, m).kind == MemberSeparator
    requires Ends(ReadValue(doc, extracts, NextToken(doc, m).end, GetOrNull(done, key), nodes + 1), v)
    ensures Ends(ReadMember(doc, extracts, m, done, key, nodes), v)
  {
    hide ReadValue, ReadComma, NextToken, Recover, Put, GetOrNull;
  }

  lemma NoCommaEnds(doc: Text, extracts: Text -> bool, e: nat, members: seq<Member>, key: Text, nodes: nat, v: Verdict)
    requires VerdictAt(doc, extracts, Stop(MemberEndDue, e, nodes)) == Some(v)
    ensures e <= |doc| && Ends(ReadComma(doc, extracts, e, members, key, nodes), v)
  {
    hide TokenAt, Recover, ReadMembers, NextToken, SkipComments;
    CommaOrComment(doc, e);
    NothingAtEnd(doc, extracts, members, key, nodes);
  }

  lemma CommaOrComment(doc: Text, e: nat)
    requires e <= |doc|
    ensures var t := NextToken(doc, e);
            SkipComments(doc, e) == if t.kind == Comment then SkipComments(doc, t.end) else t
  {
    hide TokenAt;
  }

  lemma NoMemberEnd(doc: Text, extracts: Text -> bool, m: nat, done: seq<Member>, key: Text, e: nat, x: Value,
          nodes: nat, v: Verdict)
    requires m <= |doc| && NextToken(doc, m).kind == MemberSeparator && e <= |doc|
    requires ReadValue(doc, extracts, NextToken(doc, m).end, GetOrNull(done, key), nodes + 1) == Done(true, e, x, [])
    requires VerdictAt(doc, extracts, Stop(MemberEndDue, e, nodes)) == Some(v)
    ensures Ends(ReadMember(doc, extracts, m, done, key, nodes), v)
  {
    NoCommaEnds(doc, extracts, e, Put(done, key, x), key, nodes, v);
    hide ReadValue, ReadComma, NextToken, Recover, Put, GetOrNull, VerdictAt;
  }

  /** A gap and a value are read. */
  lemma ValuePassed(doc: Text, extracts: Text -> bool, p: nat, g: Gap, d: Tree, cur: Value, nodes: nat, e: nat)
    requires ValueAt(doc, extracts, p, g, d, STACK_LIMIT - nodes, e)
    ensures p <= e <= |doc|
    ensures ReadValue(doc, extracts, p, cur, nodes + 1) == Done(true, e, Meaning(d, extracts), [])
  {
    hide ReadValue, At, GapText, TreeText, GapWf, Wf, Within, Meaning, Separated, Bounded;
    GapBeforeValue(doc, extracts, p, g, cur, nodes + 1);
    TreeAccepted(doc, extracts, p + |GapText(g)|, d, cur, nodes + 1);
    AtEnds(doc, p + |GapText(g)|, TreeText(d));
  }

  /** A name is read. */
  lemma NamePassed(doc: Text, extracts: Text -> bool, p: nat, done: seq<Member>, last: Text, before: Gap,
          name: seq<Piece>, nodes: nat)
    requires NameAt(doc, p, before, name)
    ensures PiecesWf(name)
    ensures var m := p + |GapText(before)| + |NameText(name)|;
            && p <= m <= |doc|
            && ReadMembers(doc, extracts, p, done, last, nodes)
               == ReadMember(doc, extracts, m, done, PiecesMeaning(name), nodes)
  {
    hide At, GapText, NameText, GapWf, PiecesWf, PiecesMeaning, DecodeBody, SkipComments, ReadMembers, ReadMember;
    var n := p + |GapText(before)|;
    GapSkipped(doc, p, before);
    StringTokenAt(doc, n, name);
    AtEnds(doc, n, NameText(name));
    NameStep(doc, extracts, p, done, last, PiecesMeaning(name), n, n + |NameText(name)|, nodes);
  }

  /** And so is its colon. */
  lemma ColonPassed(doc: Text, p: nat, h: Head)
    requires HeadAt(doc, p, h)
    ensures NameAt(doc, p, h.before, h.name)
    ensures var m := p + |GapText(h.before)| + |NameText(h.name)|;
            m <= |doc| && ColonOf(p, h) + 1 <= |doc|
            && NextToken(doc, m) == Token(MemberSeparator, ColonOf(p, h), ColonOf(p, h) + 1)
  {
    hide At, GapText, NameText, GapWf, PiecesWf, SpacesOnly, NextToken, TokenAt, SkipComments;
    var m := p + |GapText(h.before)| + |NameText(h.name)|;
    AtEnds(doc, m, GapText(h.spaces));
    GapSkipped(doc, m, h.spaces);
    Punctuation(doc, ColonOf(p, h), COLON);
    ColonFits(doc, ColonOf(p, h));
  }

  /** An array of the spine does not close at once. */
  lemma SpineArray(doc: Text, extracts: Text -> bool, p: nat, elems: Elems, nodes: nat)
    requires p <= |doc| && ElemsAt(doc, extracts, p, elems, STACK_LIMIT - nodes)
    requires elems.NoElems? ==> !Has(doc, SkipSpaces(doc, p), {RBRACKET})
    ensures ReadArray(doc, extracts, p, nodes) == ReadItems(doc, extracts, p, [], nodes)
  {
    hide ReadArray, ReadItems, At, GapText, TreeText, GapWf, Wf, Holds, Within, SkipComments, SkipSpaces;
    ArrayCases(doc, extracts, p, nodes);
    if elems.Elem? {
      GapSkipped(doc, p, elems.before);
      TreeOpens(doc, extracts, p + |GapText(elems.before)|, elems.item);
      ArrayOpens(doc, extracts, p, nodes);
    }
  }

  lemma {:induction false} SpineEnds(doc: Text, extracts: Text -> bool, p: nat, s: Spine, cur: Value, nodes: nat,
          to: Stop, v: Verdict)
    requires Leads(doc, extracts, p, s, nodes, to) && VerdictAt(doc, extracts, to) == Some(v)
    ensures p <= |doc| && Ends(ReadValue(doc, extracts, p, cur, nodes), v)
    decreases s, 1
  {
    hide ReadValue, ReadArray, ReadItems, ReadMembers, At, GapText, GapWf, ElemsAt, FldsAt, SkipSpaces, VerdictAt, Ends;
    hide ArrayLeads, ObjectLeads, ElemsLength, FldsLength, LastName;
    match s
    case Here => HereEnds(doc, extracts, p, cur, nodes, v);
    case InArray(gap, elems, rest) =>
      var q := p + |GapText(gap)|;
      AtEnds(doc, q, [LBRACKET]);
      GapBeforeValue(doc, extracts, p, gap, cur, nodes);
      ArrayBegins(doc, extracts, q, cur, nodes);
      NoLength(elems);
      SpineArray(doc, extracts, q + 1, elems, nodes);
      var more := ElemsPassed(doc, extracts, q + 1, [], elems, nodes);
      ArrayRestEnds(doc, extracts, q + 1 + ElemsLength(elems), rest, more, nodes, to, v);
    case InObject(gap, flds, rest) =>
      var q := p + |GapText(gap)|;
      AtEnds(doc, q, [LBRACE]);
      GapBeforeValue(doc, extracts, p, gap, cur, nodes);
      ObjectBegins(doc, extracts, q, cur, nodes);
      var more := FldsPassed(doc, extracts, q + 1, [], flds, [], nodes);
      ObjectRestEnds(doc, extracts, q + 1 + FldsLength(flds), more, LastName(flds, []), rest, nodes, to, v);
  }

  lemma {:induction false} ArrayRestEnds(doc: Text, extracts: Text -> bool, e: nat, rest: ArrayRest, done: seq<Value>,
          nodes: nat, to: Stop, v: Verdict)
    requires ArrayLeads(doc, extracts, e, rest, nodes, to) && VerdictAt(doc, extracts, to) == Some(v) && e <= |doc|
    ensures Ends(ReadItems(doc, extracts, e, done, nodes), v)
    decreases rest, 0
  {
    hide ReadValue, ReadItems, VerdictAt, Ends, ValueAt, Leads, Meaning;
    match rest
    case ItemOpen(inner) =>
      SpineEnds(doc, extracts, e, inner, Null, nodes + 1, to, v);
      ItemEnds(doc, extracts, e, done, nodes, v);
    case ItemRead(before, item) =>
      ValuePassed(doc, extracts, e, before, item, Null, nodes, to.at);
      ValueIsWf(doc, extracts, e, before, item, STACK_LIMIT - nodes, to.at);
      NoItemEnd(doc, extracts, e, done, to.at, Meaning(item, extracts), nodes, v);
  }

  lemma ValueIsWf(doc: Text, extracts: Text -> bool, p: nat, g: Gap, d: Tree, n: int, e: nat)
    requires ValueAt(doc, extracts, p, g, d, n, e)
    ensures Wf(d, extracts)
  {
    hide Holds, Wf, Within;
  }

  lemma {:induction false} ObjectRestEnds(doc: Text, extracts: Text -> bool, e: nat, done: seq<Member>, last: Text,
          rest: ObjectRest, nodes: nat, to: Stop, v: Verdict)
    requires ObjectLeads(doc, extracts, e, last, rest, nodes, to) && VerdictAt(doc, extracts, to) == Some(v)
    requires e <= |doc|
    ensures Ends(ReadMembers(doc, extracts, e, done, last, nodes), v)
    decreases rest, 0
  {
    hide ReadValue, ReadMembers, ReadMember, VerdictAt, Ends, ValueAt, Leads, NameAt, HeadAt, Meaning, PiecesMeaning;
    hide GetOrNull, NextToken, PiecesWf, GapText, NameText;
    match rest
    case NoName => NoNameEnds(doc, extracts, e, done, last, nodes, v);
    case NameRead(before, name) =>
      NamePassed(doc, extracts, e, done, last, before, name, nodes);
      NoColonEnds(doc, extracts, to.at, done, PiecesMeaning(name), nodes, v);
    case ValueOpen(head, inner) =>
      ColonPassed(doc, e, head);
      NamePassed(doc, extracts, e, done, last, head.before, head.name, nodes);
      var key := PiecesMeaning(head.name);
      SpineEnds(doc, extracts, ColonOf(e, head) + 1, inner, GetOrNull(done, key), nodes + 1, to, v);
      MemberEnds(doc, extracts, e + |GapText(head.before)| + |NameText(head.name)|, done, key, nodes, v);
    case ValueRead(head, between, value) =>
      ColonPassed(doc, e, head);
      NamePassed(doc, extracts, e, done, last, head.before, head.name, nodes);
      var c, key := ColonOf(e, head), PiecesMeaning(head.name);
      ValuePassed(doc, extracts, c + 1, between, value, GetOrNull(done, key), nodes, to.at);
      ValueIsWf(doc, extracts, c + 1, between, value, STACK_LIMIT - nodes, to.at);
      NoMemberEnd(doc, extracts, e + |GapText(head.before)| + |NameText(head.name)|, done, key, to.at,
                  Meaning(value, extracts), nodes, v);
  }

  // ---------- nothing else does ----------

  /** What a reading that yields no value begins with. */
  lemma EndBegins(doc: Text, extracts: Text -> bool, p: nat, cur: Value, nodes: nat, v: Verdict)
    requires p <= |doc| && nodes <= STACK_LIMIT && Ends(ReadValue(doc, extracts, p, cur, nodes), v)
    ensures var t := SkipComments(doc, p);
            match t.kind
            case ObjectBegin => t.start < |doc| && Ends(ReadMembers(doc, extracts, t.end, [], [], nodes), v)
            case ArrayBegin => t.start < |doc| && Ends(ReadArray(doc, extracts, t.end, nodes), v)
            case _ => VerdictAt(doc, extracts, Stop(ValueDue, p, nodes)) == Some(v)
  {
    hide SkipComments, ReadMembers, ReadArray, DecodeBody, NumberValue;
  }

  /** A round of the loop of `readArray` that does not end well. */
  lemma ItemRoundEnds(doc: Text, extracts: Text -> bool, p: nat, done: seq<Value>, nodes: nat, v: Verdict)
    requires p <= |doc| && Ends(ReadItems(doc, extracts, p, done, nodes), v)
    ensures var r := ReadValue(doc, extracts, p, Null, nodes + 1);
            Ends(r, v) ||
            (&& Succeeds(r) && p <= r.pos <= |doc|
             && (VerdictAt(doc, extracts, Stop(ItemEndDue, r.pos, nodes)) == Some(v)
                 || var t := SkipComments(doc, r.pos);
                    && t.kind == ArraySeparator && t.start < |doc|
                    && Ends(ReadItems(doc, extracts, t.end, done + [r.value], nodes), v)))
  {
    hide ReadValue, SkipComments, Recover;
  }

  /** A round of the loop of `readObject` that does not, up to the name. */
  lemma NameRoundEnds(doc: Text, extracts: Text -> bool, p: nat, done: seq<Member>, last: Text, nodes: nat, v: Verdict)
    requires p <= |doc| && Ends(ReadMembers(doc, extracts, p, done, last, nodes), v)
    ensures VerdictAt(doc, extracts, Stop(NameDue(last), p, nodes)) == Some(v) ||
            var t := SkipComments(doc, p);
            && t.kind == StringToken && t.start < |doc|
            && var name := DecodeBody(doc, t.start + 1, t.end - 1);
               name.Decoded? && Ends(ReadMember(doc, extracts, t.end, done, name.t, nodes), v)
  {
    hide SkipComments, ReadMember, DecodeBody, Recover;
  }

  /** The rest of that round, up to the value. */
  lemma MemberRoundEnds(doc: Text, extracts: Text -> bool, m: nat, done: seq<Member>, key: Text, nodes: nat, v: Verdict)
    requires m <= |doc| && Ends(ReadMember(doc, extracts, m, done, key, nodes), v)
    ensures VerdictAt(doc, extracts, Stop(ColonDue, m, nodes)) == Some(v) ||
            var colon := NextToken(doc, m);
            && colon.kind == MemberSeparator && colon.start < |doc|
            && var r := ReadValue(doc, extracts, colon.end, GetOrNull(done, key), nodes + 1);
               Ends(r, v) ||
               (&& Succeeds(r) && colon.end <= r.pos <= |doc|
                && Ends(ReadComma(doc, extracts, r.pos, Put(done, key, r.value), key, nodes), v))
  {
    hide ReadValue, ReadComma, TokenAt, NextToken, Put, Recover, GetOrNull;
  }

  /** And behind the value. */
  lemma CommaRoundEnds(doc: Text, extracts: Text -> bool, e: nat, members: seq<Member>, key: Text, nodes: nat,
          v: Verdict)
    requires e <= |doc| && Ends(ReadComma(doc, extracts, e, members, key, nodes), v)
    ensures VerdictAt(doc, extracts, Stop(MemberEndDue, e, nodes)) == Some(v) ||
            var t := SkipComments(doc, e);
            && NextToken(doc, e).kind in {ArraySeparator, Comment} && t.start < |doc| && t.kind != ObjectEnd
            && (NextToken(doc, e).kind != Comment ==> t == NextToken(doc, e))
            && (t.kind == ArraySeparator || t.end < |doc|)
            && Ends(ReadMembers(doc, extracts, t.end, members, key, nodes), v)
  {
    hide TokenAt, Recover, ReadMembers, NextToken, SkipComments;
    CommaOrComment(doc, e);
    NothingAtEnd(doc, extracts, members, key, nodes);
  }

  lemma NothingAtEnd(doc: Text, extracts: Text -> bool, done: seq<Member>, last: Text, nodes: nat)
    ensures Ends(ReadMembers(doc, extracts, |doc|, done, last, nodes),
                 Reports(ErrorInfo(MissingBraceOrName, Token(EndOfStream, |doc|, |doc|), None)))
  {
    hide TokenAt, Recover;
  }

  lemma HereMade(doc: Text, extracts: Text -> bool, p: nat, nodes: nat)
    requires p <= |doc|
    ensures Leads(doc, extracts, p, Here, nodes, Stop(ValueDue, p, nodes))
  {
  }

  lemma ArrayMade(doc: Text, extracts: Text -> bool, p: nat, gap: Gap, elems: Elems, rest: ArrayRest, nodes: nat,
          to: Stop)
    requires nodes <= STACK_LIMIT && GapWf(gap) && At(doc, p, GapText(gap))
    requires var q := p + |GapText(gap)|; var e := q + 1 + ElemsLength(elems);
             && At(doc, q, [LBRACKET]) && ElemsAt(doc, extracts, q + 1, elems, STACK_LIMIT - nodes)
             && (elems.NoElems? ==> e <= |doc| && !Has(doc, SkipSpaces(doc, e), {RBRACKET}))
             && ArrayLeads(doc, extracts, e, rest, nodes, to)
    ensures Leads(doc, extracts, p, InArray(gap, elems, rest), nodes, to)
  {
    hide At, GapText, GapWf, ElemsAt, ElemsLength, SkipSpaces, Has, ArrayLeads;
  }

  lemma ObjectMade(doc: Text, extracts: Text -> bool, p: nat, gap: Gap, flds: Flds, rest: ObjectRest, nodes: nat,
          to: Stop)
    requires nodes <= STACK_LIMIT && GapWf(gap) && At(doc, p, GapText(gap))
    requires var q := p + |GapText(gap)|; var e := q + 1 + FldsLength(flds);
             && At(doc, q, [LBRACE]) && FldsAt(doc, extracts, q + 1, flds, STACK_LIMIT - nodes)
             && ObjectLeads(doc, extracts, e, LastName(flds, []), rest, nodes, to)
    ensures Leads(doc, extracts, p, InObject(gap, flds, rest), nodes, to)
  {
    hide At, GapText, GapWf, FldsAt, FldsLength, LastName, ObjectLeads;
  }

  lemma NoLength(es: Elems)
    ensures es.NoElems? ==> ElemsLength(es) == 0
  {
  }

  /** Whatever ends without a value has come to a stop through a spine. */
  lemma {:induction false} SpineFound(doc: Text, extracts: Text -> bool, p: nat, cur: Value, nodes: nat, v: Verdict)
    returns (s: Spine, to: Stop)
    requires p <= |doc| && Ends(ReadValue(doc, extracts, p, cur, nodes), v)
    ensures Leads(doc, extracts, p, s, nodes, to) && VerdictAt(doc, extracts, to) == Some(v)
    decreases |doc| - p, 2
  {
    hide SkipComments, TokenAt, ReadMembers, ReadArray, ReadItems, NextToken, GapText, GapWf, At, SkipSpaces;
    hide ElemsAt, FldsAt, SpacesOnly, Leads, Has, ElemsLength, FldsLength, ArrayLeads, ObjectLeads;
    hide Refusal, ReadScalar;
    s, to := Here, Stop(ValueDue, p, nodes);
    HereMade(doc, extracts, p, nodes);
    if nodes <= STACK_LIMIT {
      hide ReadValue;
      var t := SkipComments(doc, p);
      EndBegins(doc, extracts, p, cur, nodes, v);
      if t.kind == ObjectBegin {
        var g := TokenFound(doc, p);
        PunctuationFound(doc, t.start);
        var flds, rest;
        flds, rest, to := FldsFound(doc, extracts, t.end, [], [], nodes, v);
        s := InObject(g, flds, rest);
        ObjectMade(doc, extracts, p, g, flds, rest, nodes, to);
      } else if t.kind == ArrayBegin {
        var g := TokenFound(doc, p);
        PunctuationFound(doc, t.start);
        ArrayCases(doc, extracts, t.end, nodes);
        var elems, rest;
        elems, rest, to := ElemsFound(doc, extracts, t.end, [], nodes, v);
        NoLength(elems);
        s := InArray(g, elems, rest);
        ArrayMade(doc, extracts, p, g, elems, rest, nodes, to);
      }
    }
  }

  lemma {:induction false} ElemsFound(doc: Text, extracts: Text -> bool, p: nat, done: seq<Value>, nodes: nat,
          v: Verdict)
    returns (es: Elems, rest: ArrayRest, to: Stop)
    requires p <= |doc| && nodes <= STACK_LIMIT && Ends(ReadItems(doc, extracts, p, done, nodes), v)
    ensures ElemsAt(doc, extracts, p, es, STACK_LIMIT - nodes)
    ensures ArrayLeads(doc, extracts, p + ElemsLength(es), rest, nodes, to) && VerdictAt(doc, extracts, to) == Some(v)
    decreases |doc| - p, 3
  {
    hide ReadItems, ReadValue, SkipComments, NextToken, TokenAt, GapText, At, GapWf, SpacesOnly, Leads, TreeText;
    hide Wf, Within, Ends, VerdictAt;
    hide Meaning, Holds;
    ItemRoundEnds(doc, extracts, p, done, nodes, v);
    var r := ReadValue(doc, extracts, p, Null, nodes + 1);
    es := NoElems;
    if Ends(r, v) {
      var inner;
      inner, to := SpineFound(doc, extracts, p, Null, nodes + 1, v);
      rest := ItemOpen(inner);
    } else {
      var g, d := TreeFound(doc, extracts, p, Null, nodes + 1);
      if VerdictAt(doc, extracts, Stop(ItemEndDue, r.pos, nodes)) == Some(v) {
        rest, to := ItemRead(g, d), Stop(ItemEndDue, r.pos, nodes);
      } else {
        var t := SkipComments(doc, r.pos);
        var h := TokenFound(doc, r.pos);
        PunctuationFound(doc, t.start);
        var more;
        more, rest, to := ElemsFound(doc, extracts, t.end, done + [r.value], nodes, v);
        es := Elem(g, d, h, more);
      }
    }
  }

  lemma {:induction false} FldsFound(doc: Text, extracts: Text -> bool, p: nat, done: seq<Member>, last: Text,
          nodes: nat, v: Verdict)
    returns (fs: Flds, rest: ObjectRest, to: Stop)
    requires p <= |doc| && nodes <= STACK_LIMIT && Ends(ReadMembers(doc, extracts, p, done, last, nodes), v)
    ensures FldsAt(doc, extracts, p, fs, STACK_LIMIT - nodes)
    ensures ObjectLeads(doc, extracts, p + FldsLength(fs), LastName(fs, last), rest, nodes, to)
    ensures VerdictAt(doc, extracts, to) == Some(v)
    decreases |doc| - p, 1
  {
    hide ReadMembers, ReadMember, ReadValue, SkipComments, NextToken, TokenAt, GapText, At, GapWf, SpacesOnly, Leads;
    hide PiecesText, PiecesMeaning, PiecesWf, DecodeBody, FldAt, HeadAt, NameAt, Ends, VerdictAt;
    NameRoundEnds(doc, extracts, p, done, last, nodes, v);
    if VerdictAt(doc, extracts, Stop(NameDue(last), p, nodes)) == Some(v) {
      fs, rest, to := NoFlds, NoName, Stop(NameDue(last), p, nodes);
    } else {
      var g := TokenFound(doc, p);
      var t := SkipComments(doc, p);
      var xs := StringFound(doc, t.start);
      fs, rest, to := FldFound(doc, extracts, p, done, last, g, xs, t.end, nodes, v);
    }
  }

  lemma {:induction false} FldFound(doc: Text, extracts: Text -> bool, p: nat, done: seq<Member>, last: Text, g: Gap,
          xs: seq<Piece>, m: nat, nodes: nat, v: Verdict)
    returns (fs: Flds, rest: ObjectRest, to: Stop)
    requires GapWf(g) && At(doc, p, GapText(g)) && PiecesWf(xs) && At(doc, p + |GapText(g)|, NameText(xs))
    requires m == p + |GapText(g)| + |NameText(xs)| && m <= |doc| && nodes <= STACK_LIMIT
    requires Ends(ReadMember(doc, extracts, m, done, PiecesMeaning(xs), nodes), v)
    ensures FldsAt(doc, extracts, p, fs, STACK_LIMIT - nodes)
    ensures ObjectLeads(doc, extracts, p + FldsLength(fs), LastName(fs, last), rest, nodes, to)
    ensures VerdictAt(doc, extracts, to) == Some(v)
    decreases |doc| - p, 0
  {
    hide ReadMembers, ReadMember, ReadValue, SkipComments, TokenAt, GapText, At, GapWf, SpacesOnly, Put, NameText;
    hide PiecesText, PiecesMeaning, PiecesWf, GetOrNull, SkipSpaces, Leads, FieldHolds, FieldText, Separates, FldAt;
    hide Ends, VerdictAt, ReadComma, ValueAt, Found;
    var key := PiecesMeaning(xs);
    MemberRoundEnds(doc, extracts, m, done, key, nodes, v);
    fs := NoFlds;
    if VerdictAt(doc, extracts, Stop(ColonDue, m, nodes)) == Some(v) {
      rest, to := NameRead(g, xs), Stop(ColonDue, m, nodes);
    } else {
      var colon := NextToken(doc, m);
      var cur := GetOrNull(done, key);
      var r := ReadValue(doc, extracts, colon.end, cur, nodes + 1);
      var spaces := SpacesFound(doc, m);
      PunctuationFound(doc, colon.start);
      var head := Head(g, xs, spaces);
      if Ends(r, v) {
        var inner;
        inner, to := SpineFound(doc, extracts, colon.end, cur, nodes + 1, v);
        rest := ValueOpen(head, inner);
      } else {
        CommaRoundEnds(doc, extracts, r.pos, Put(done, key, r.value), key, nodes, v);
        if VerdictAt(doc, extracts, Stop(MemberEndDue, r.pos, nodes)) == Some(v) {
          var between, d := TreeFound(doc, extracts, colon.end, cur, nodes + 1);
          ValueFound(doc, extracts, colon.end, between, d, r.pos, r.value, nodes);
          rest, to := ValueRead(head, between, d), Stop(MemberEndDue, r.pos, nodes);
        } else {
          fs, rest, to := MoreFldsFound(doc, extracts, p, done, last, g, xs, m, nodes, v);
        }
      }
    }
  }

  lemma ValueFound(doc: Text, extracts: Text -> bool, p: nat, g: Gap, d: Tree, e: nat, x: Value, nodes: nat)
    requires nodes <= STACK_LIMIT && GapWf(g) && At(doc, p, GapText(g))
    requires Found(doc, extracts, p + |GapText(g)|, d, e, x, STACK_LIMIT - nodes)
    ensures ValueAt(doc, extracts, p, g, d, STACK_LIMIT - nodes, e)
  {
    hide At, GapText, GapWf, Wf, Holds, Meaning, Within, TreeText;
  }

  /** A field that is complete, and what follows it. */
  lemma {:induction false} MoreFldsFound(doc: Text, extracts: Text -> bool, p: nat, done: seq<Member>, last: Text,
          g: Gap, xs: seq<Piece>, m: nat, nodes: nat, v: Verdict)
    returns (fs: Flds, rest: ObjectRest, to: Stop)
    requires GapWf(g) && At(doc, p, GapText(g)) && PiecesWf(xs) && At(doc, p + |GapText(g)|, NameText(xs))
    requires m == p + |GapText(g)| + |NameText(xs)| && m <= |doc| && nodes <= STACK_LIMIT
    requires var colon, key := NextToken(doc, m), PiecesMeaning(xs);
             && colon.kind == MemberSeparator && colon.start < |doc|
             && var r := ReadValue(doc, extracts, colon.end, GetOrNull(done, key), nodes + 1);
                && Succeeds(r) && m < r.pos <= |doc|
                && NextToken(doc, r.pos).kind in {ArraySeparator, Comment}
                && var t := SkipComments(doc, r.pos);
                   && t.start < |doc| && t.kind != ObjectEnd
                   && (NextToken(doc, r.pos).kind != Comment ==> t == NextToken(doc, r.pos))
                   && (t.kind == ArraySeparator || t.end < |doc|)
                   && Ends(ReadMembers(doc, extracts, t.end, Put(done, key, r.value), key, nodes), v)
    ensures FldsAt(doc, extracts, p, fs, STACK_LIMIT - nodes)
    ensures ObjectLeads(doc, extracts, p + FldsLength(fs), LastName(fs, last), rest, nodes, to)
    ensures VerdictAt(doc, extracts, to) == Some(v)
    decreases |doc| - m, 1
  {
    hide ReadMembers, ReadMember, ReadValue, SkipComments, TokenAt, NextToken, GapText, At, GapWf, SpacesOnly, Put;
    hide PiecesText, PiecesMeaning, PiecesWf, GetOrNull, SkipSpaces, FieldHolds, FieldText, Separates, FldAt, NameText;
    hide Ends, VerdictAt, ObjectLeads;
    var key := PiecesMeaning(xs);
    var r := ReadValue(doc, extracts, NextToken(doc, m).end, GetOrNull(done, key), nodes + 1);
    var t := SkipComments(doc, r.pos);
    var f := FieldBehind(doc, extracts, p, done, g, xs, m, nodes);
    PunctuationFound(doc, t.start);
    var separator := doc[t.start..t.end];
    SeparatorFound(doc, t);
    FldMade(doc, extracts, p, f, r.value, separator, STACK_LIMIT - nodes);
    var more;
    more, rest, to := FldsFound(doc, extracts, t.end, Put(done, key, r.value), key, nodes, v);
    fs := Fld(f, separator, more);
  }

  lemma FldMade(doc: Text, extracts: Text -> bool, p: nat, f: Field, v: Value, separator: Text, n: int)
    requires FieldHolds(doc, extracts, p, f, v, n)
    requires At(doc, p + |FieldText(f)|, separator) && Separates(doc, p + |FieldText(f)|, separator)
    requires separator == [COMMA] || (separator != [] && !SpacesOnly(f.after))
    ensures FldAt(doc, extracts, p, f, separator, n)
  {
    hide At, FieldText, FieldWf, Separated, Separates, SpacesOnly, Within, Meaning;
  }

  // ---------- the theorems ----------

  /**
   * `parse` ends at the stack limit, or with an error, exactly on the documents that lead through
   * brackets and braces, with complete siblings before each, to a stop where that is the verdict,
   * whatever follows; and no document leads to two verdicts.
   */
  lemma EndsExactly(doc: Text, extracts: Text -> bool, root: Value, v: Verdict)
    ensures Ends(Parse(doc, extracts, root), v)
       <==> exists s, to :: Leads(doc, extracts, 0, s, 1, to) && VerdictAt(doc, extracts, to) == Some(v)
  {
    hide ReadValue, Leads, VerdictAt, SkipComments;
    if Ends(Parse(doc, extracts, root), v) {
      var s, to := SpineFound(doc, extracts, 0, root, 1, v);
    }
    if s, to :| Leads(doc, extracts, 0, s, 1, to) && VerdictAt(doc, extracts, to) == Some(v) {
      SpineEnds(doc, extracts, 0, s, root, 1, to, v);
    }
  }

  /** The document opens 1000 brackets or braces one inside the other, and then asks for one value more. */
  ghost predicate TooDeep(doc: Text, extracts: Text -> bool)
  {
    exists s, at :: Levels(s) == 1000 && Leads(doc, extracts, 0, s, 1, Stop(ValueDue, at, 1001))
  }

  lemma ThrowsExactly(doc: Text, extracts: Text -> bool, root: Value)
    ensures Parse(doc, extracts, root) == Thrown <==> TooDeep(doc, extracts)
  {
    hide Parse, Leads, Levels, Refusal;
    EndsExactly(doc, extracts, root, Throws);
    if Parse(doc, extracts, root) == Thrown {
      var s, to :| Leads(doc, extracts, 0, s, 1, to) && VerdictAt(doc, extracts, to) == Some(Throws);
      SpineLevels(doc, extracts, 0, s, 1, to);
      SpineNodes(doc, extracts, 0, s, 1, to);
      assert to == Stop(ValueDue, to.at, 1001);
    }
    if s, at :| Levels(s) == 1000 && Leads(doc, extracts, 0, s, 1, Stop(ValueDue, at, 1001)) {
      StopWithin(doc, extracts, 0, s, 1, Stop(ValueDue, at, 1001));
    }
  }

  /** A spine opens no more than the stack holds, and its stop is within the document. */
  lemma {:induction false} SpineNodes(doc: Text, extracts: Text -> bool, p: nat, s: Spine, nodes: nat, to: Stop)
    requires Leads(doc, extracts, p, s, nodes, to) && nodes <= STACK_LIMIT + 1
    ensures to.nodes <= STACK_LIMIT + 1
    decreases s
  {
    hide At, GapText, GapWf, ElemsAt, FldsAt, HeadAt, NameAt, ValueAt, SkipSpaces;
    match s
    case InArray(gap, elems, ItemOpen(inner)) =>
      SpineNodes(doc, extracts, p + |GapText(gap)| + 1 + ElemsLength(elems), inner, nodes + 1, to);
    case InObject(gap, flds, ValueOpen(head, inner)) =>
      SpineNodes(doc, extracts, ColonOf(p + |GapText(gap)| + 1 + FldsLength(flds), head) + 1, inner, nodes + 1, to);
    case _ =>
  }

  lemma {:induction false} StopWithin(doc: Text, extracts: Text -> bool, p: nat, s: Spine, nodes: nat, to: Stop)
    requires Leads(doc, extracts, p, s, nodes, to) && to.place == ValueDue
    ensures to.at <= |doc|
    decreases s
  {
    hide At, GapText, GapWf, ElemsAt, FldsAt, HeadAt, NameAt, ValueAt, SkipSpaces;
    match s
    case InArray(gap, elems, ItemOpen(inner)) =>
      StopWithin(doc, extracts, p + |GapText(gap)| + 1 + ElemsLength(elems), inner, nodes + 1, to);
    case InObject(gap, flds, ValueOpen(head, inner)) =>
      StopWithin(doc, extracts, ColonOf(p + |GapText(gap)| + 1 + FldsLength(flds), head) + 1, inner, nodes + 1, to);
    case _ =>
  }

  /**
   * Every document is accepted, or nested too deep, or reported by exactly one error, that of a stop
   * it leads to; and never two of these.
   */
  lemma ThreeOutcomes(doc: Text, extracts: Text -> bool, root: Value)
    ensures var accepted := exists g, d :: Document(doc, extracts, g, d) && Within(d, STACK_LIMIT);
            var deep := TooDeep(doc, extracts);
            var r := Parse(doc, extracts, root);
            && !(accepted && deep)
            && (accepted <==> r.Done? && r.ok) && (deep <==> r == Thrown)
            && (!accepted && !deep <==>
                  exists s, to, error ::
                    && Leads(doc, extracts, 0, s, 1, to) && VerdictAt(doc, extracts, to) == Some(Reports(error))
                    && r.Done? && r.errors == [error])
  {
    hide Parse, Leads, VerdictAt, TooDeep, Holds, Wf, Within, Meaning, Levels;
    ThrowsExactly(doc, extracts, root);
    var r := Parse(doc, extracts, root);
    if r.Done? && r.ok {
      var g, d := DocumentFound(doc, extracts, root);
    }
    if g, d :| Document(doc, extracts, g, d) && Within(d, STACK_LIMIT) {
      DocumentAccepted(doc, extracts, g, d, root);
    }
    if r.Done? && !r.ok {
      EndsExactly(doc, extracts, root, Reports(r.errors[0]));
    }
  }
}
