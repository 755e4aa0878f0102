/**
 * What `Json::Reader` does under default Features, as functions of the document and the cursor.
 * `extracts` says which number tokens the stream extraction of `decodeDouble` accepts.
 */
module ReaderSpec {
  import opened Bytes
  import Decimal
  import opened Options
  import opened Quote
  import opened JsonValue

  const STACK_LIMIT: nat := 1000

  const RUE: Text := [0x72, 0x75, 0x65]
  const ALSE: Text := [0x61, 0x6C, 0x73, 0x65]
  const ULL: Text := [0x75, 0x6C, 0x6C]

  datatype TokenType =
    | EndOfStream
    | ObjectBegin
    | ObjectEnd
    | ArrayBegin
    | ArrayEnd
    | StringToken
    | NumberToken
    | TrueToken
    | FalseToken
    | NullToken
    | ArraySeparator
    | MemberSeparator
    | Comment
    | ErrorToken

  datatype Token = Token(kind: TokenType, start: nat, end: nat)

  datatype ErrorKind =
    | ValueExpected
    | MissingColon
    | MissingCommaOrBrace
    | MissingBraceOrName
    | MissingCommaOrBracket
    | NotANumber
    | InString(kind: StringError)

  datatype ErrorInfo = ErrorInfo(kind: ErrorKind, token: Token, extra: Option<nat>)

  // ---------- tokens ----------

  predicate IsSpace(c: Byte) { c == SPACE || c == TAB || c == CR || c == LF }

  /** `skipSpaces`. */
  function SkipSpaces(doc: Text, current: nat): (r: nat)
    requires current <= |doc|
    ensures current <= r <= |doc|
    decreases |doc| - current
  {
    if current < |doc| && IsSpace(doc[current]) then SkipSpaces(doc, current + 1) else current
  }

  /** The first position from p on that holds no digit. */
  function DigitsEnd(doc: Text, p: nat): (r: nat)
    requires p <= |doc|
    ensures p <= r <= |doc|
    decreases |doc| - p
  {
    if p < |doc| && Decimal.IsDigit(doc[p]) then DigitsEnd(doc, p + 1) else p
  }

  predicate Has(doc: Text, p: nat, choices: set<Byte>) { p < |doc| && doc[p] in choices }

  function FractionEnd(doc: Text, p: nat): (r: nat)
    requires p <= |doc|
    ensures p <= r <= |doc|
  {
    if Has(doc, p, {DOT}) then DigitsEnd(doc, p + 1) else p
  }

  function ExponentEnd(doc: Text, p: nat): (r: nat)
    requires p <= |doc|
    ensures p <= r <= |doc|
  {
    if Has(doc, p, {0x65, 0x45}) then DigitsEnd(doc, if Has(doc, p + 1, {0x2B, MINUS}) then p + 2 else p + 1) else p
  }

  /** `readNumber`: digits, then a fraction, then an exponent, as far as they go. */
  function NumberEnd(doc: Text, current: nat): (r: nat)
    requires current <= |doc|
    ensures current <= r <= |doc|
  {
    ExponentEnd(doc, FractionEnd(doc, DigitsEnd(doc, current)))
  }

  /** `readCStyleComment` from behind the opening star. */
  function CStyleEnd(doc: Text, current: nat): (r: (nat, bool))
    requires current <= |doc|
    ensures current <= r.0 <= |doc|
    decreases |doc| - current
  {
    if current + 1 < |doc| then
      if doc[current] == STAR && doc[current + 1] == SLASH then (current + 2, true) else CStyleEnd(doc, current + 1)
    else if current < |doc| then (current + 1, doc[current] == SLASH)
    else (current, false)
  }

  /** `readCppStyleComment` from behind the second slash. */
  function CppStyleEnd(doc: Text, current: nat): (r: nat)
    requires current <= |doc|
    ensures current <= r <= |doc|
    decreases |doc| - current
  {
    if current == |doc| then current
    else if doc[current] == LF then current + 1
    else if doc[current] == CR then if Has(doc, current + 1, {LF}) then current + 2 else current + 1
    else CppStyleEnd(doc, current + 1)
  }

  /** `readComment` from behind the first slash. */
  function CommentEnd(doc: Text, current: nat): (r: (nat, bool))
    requires current <= |doc|
    ensures current <= r.0 <= |doc|
  {
    if current == |doc| then (current, false)
    else if doc[current] == STAR then CStyleEnd(doc, current + 1)
    else if doc[current] == SLASH then (CppStyleEnd(doc, current + 1), true)
    else (current + 1, false)
  }

  predicate Matches(doc: Text, current: nat, pattern: Text)
    requires current <= |doc|
  {
    current + |pattern| <= |doc| && doc[current..current + |pattern|] == pattern
  }

  /** The token of a literal whose first letter is at start. */
  function Literal(doc: Text, start: nat, kind: TokenType, rest: Text): (t: Token)
    requires start < |doc|
    ensures start < t.end <= |doc|
  {
    if Matches(doc, start + 1, rest) then Token(kind, start, start + 1 + |rest|)
    else Token(ErrorToken, start, start + 1)
  }

  /** The token that begins at start, which no space precedes. */
  function TokenAt(doc: Text, start: nat): (t: Token)
    requires start <= |doc|
    ensures t.start == start && start <= t.end <= |doc|
    ensures t.end == start <==> start == |doc|
    ensures start == |doc| ==> t.kind == EndOfStream
    ensures t.kind == StringToken ==> start + 2 <= t.end
  {
    if start == |doc| then Token(EndOfStream, start, start)
    else
      var c, next := doc[start], start + 1;
      if c == LBRACE then Token(ObjectBegin, start, next)
      else if c == RBRACE then Token(ObjectEnd, start, next)
      else if c == LBRACKET then Token(ArrayBegin, start, next)
      else if c == RBRACKET then Token(ArrayEnd, start, next)
      else if c == QUOTE then
        var (end, ok) := StringEnd(doc, next);
        Token(if ok then StringToken else ErrorToken, start, end)
      else if c == SLASH then
        var (end, ok) := CommentEnd(doc, next);
        Token(if ok then Comment else ErrorToken, start, end)
      else if Decimal.IsDigit(c) || c == MINUS then Token(NumberToken, start, NumberEnd(doc, next))
      else if c == LOWER_T then Literal(doc, start, TrueToken, RUE)
      else if c == LOWER_F then Literal(doc, start, FalseToken, ALSE)
      else if c == LOWER_N then Literal(doc, start, NullToken, ULL)
      else if c == COMMA then Token(ArraySeparator, start, next)
      else if c == COLON then Token(MemberSeparator, start, next)
      else if c == 0 then Token(EndOfStream, start, next)
      else Token(ErrorToken, start, next)
  }

  /** `readToken`; the cursor is left at the end of the token. */
  function NextToken(doc: Text, current: nat): (t: Token)
    requires current <= |doc|
    ensures current <= t.start <= t.end <= |doc|
    ensures t.end == t.start <==> t.start == |doc|
    ensures t.start == |doc| ==> t.kind == EndOfStream
    ensures t.kind == StringToken ==> t.start + 2 <= t.end
  {
    TokenAt(doc, SkipSpaces(doc, current))
  }

  /** `skipCommentTokens`: the first token that is no comment. */
  function SkipComments(doc: Text, current: nat): (t: Token)
    requires current <= |doc|
    ensures current <= t.start <= t.end <= |doc|
    ensures t.kind != Comment
    ensures t.end == t.start <==> t.start == |doc|
    ensures t.start == |doc| ==> t.kind == EndOfStream
    ensures t.kind == StringToken ==> t.start + 2 <= t.end
    decreases |doc| - current
  {
    var t := NextToken(doc, current);
    if t.kind == Comment then SkipComments(doc, t.end) else t
  }

  /** `recoverFromError`: where the cursor stands behind the first closing token, or the end. */
  function Recover(doc: Text, current: nat, skipUntil: TokenType): (r: nat)
    requires current <= |doc|
    ensures current <= r <= |doc|
    decreases |doc| - current
  {
    var t := NextToken(doc, current);
    if t.kind == skipUntil || t.kind == EndOfStream then t.end else Recover(doc, t.end, skipUntil)
  }

  // ---------- values ----------

  /**
   * The outcome of reading one value: the cursor, the content of the current value and the
   * errors added; or the exception thrown when the node stack is too deep.
   */
  datatype Outcome = Done(ok: bool, pos: nat, value: Value, errors: seq<ErrorInfo>) | Thrown
  {
    /** The cursor has not passed the end, and the list holds one error exactly on failure. */
    predicate WithinFrom(doc: Text, pos: nat)
    {
      Done? ==> pos <= this.pos <= |doc| && (ok <==> errors == []) && |errors| <= 1
    }
  }

  /** `addErrorAndRecover`. */
  function FailAndRecover(doc: Text, kind: ErrorKind, t: Token, extra: Option<nat>, skipUntil: TokenType,
          value: Value): (r: Outcome)
    requires t.end <= |doc|
    ensures r.WithinFrom(doc, t.end) && r.Done?
  {
    Done(false, Recover(doc, t.end, skipUntil), value, [ErrorInfo(kind, t, extra)])
  }

  /** The value `decodeNumber` stores, unless `decodeDouble` refuses the token. */
  function NumberValue(token: Text, extracts: Text -> bool): Option<Value>
  {
    match Decimal.NumberOf(token)
    case Signed(i) => Some(Int(i))
    case Unsigned(u) => Some(UInt(u))
    case NotAnInteger => if extracts(token) then Some(Real(token)) else None
  }

  /** `readValue` behind a token that opens nothing, for a current value holding cur. */
  function ReadScalar(doc: Text, extracts: Text -> bool, t: Token, cur: Value): (r: Outcome)
    requires t.start <= t.end <= |doc| && (t.kind == StringToken ==> t.start + 2 <= t.end)
    ensures r.WithinFrom(doc, t.end) && r.Done? && r.pos == t.end
  {
    match t.kind
    case NumberToken =>
      (match NumberValue(doc[t.start..t.end], extracts)
       case Some(v) => Done(true, t.end, v, [])
       case None => Done(false, t.end, cur, [ErrorInfo(NotANumber, t, None)]))
    case StringToken =>
      (match DecodeBody(doc, t.start + 1, t.end - 1)
       case Decoded(s) => Done(true, t.end, Str(s), [])
       case Undecodable(kind, at) => Done(false, t.end, cur, [ErrorInfo(InString(kind), t, Some(at))]))
    case TrueToken => Done(true, t.end, Bool(true), [])
    case FalseToken => Done(true, t.end, Bool(false), [])
    case NullToken => Done(true, t.end, Null, [])
    case _ => Done(false, t.end, cur, [ErrorInfo(ValueExpected, t, None)])
  }

  /** `readValue`, for a current value holding cur and a node stack of the given size. */
  function ReadValue(doc: Text, extracts: Text -> bool, pos: nat, cur: Value, nodes: nat): (r: Outcome)
    requires pos <= |doc|
    ensures r.WithinFrom(doc, pos)
    decreases |doc| - pos, 2
  {
    if nodes > STACK_LIMIT then Thrown
    else
      var t := SkipComments(doc, pos);
      if t.kind == ObjectBegin then ReadMembers(doc, extracts, t.end, [], [], nodes)
      else if t.kind == ArrayBegin then ReadArray(doc, extracts, t.end, nodes)
      else ReadScalar(doc, extracts, t, cur)
  }

  /** The loop of `readObject`, entered with the members read so far and the last name. */
  function ReadMembers(doc: Text, extracts: Text -> bool, pos: nat, members: seq<Member>, name: Text,
          nodes: nat): (r: Outcome)
    requires pos <= |doc|
    ensures r.WithinFrom(doc, pos)
    decreases |doc| - pos, 1
  {
    var t := SkipComments(doc, pos);
    if t.kind == ObjectEnd && name == [] then Done(true, t.end, Obj(members), [])
    else if t.kind != StringToken then
      FailAndRecover(doc, MissingBraceOrName, t, None, ObjectEnd, Obj(members))
    else
      match DecodeBody(doc, t.start + 1, t.end - 1)
      case Undecodable(kind, at) => FailAndRecover(doc, InString(kind), t, Some(at), ObjectEnd, Obj(members))
      case Decoded(key) => ReadMember(doc, extracts, t.end, members, key, nodes)
  }

  /** One round of that loop, from behind the name. */
  function ReadMember(doc: Text, extracts: Text -> bool, pos: nat, members: seq<Member>, key: Text,
          nodes: nat): (r: Outcome)
    requires pos <= |doc|
    ensures r.WithinFrom(doc, pos)
    decreases |doc| - pos, 0
  {
    var colon := NextToken(doc, pos);
    if colon.kind != MemberSeparator then
      FailAndRecover(doc, MissingColon, colon, None, ObjectEnd, Obj(members))
    else
      match ReadValue(doc, extracts, colon.end, GetOrNull(members, key), nodes + 1)
      case Thrown => Thrown
      case Done(ok, p, v, errors) =>
        var ms := Put(members, key, v);
        if !ok then Done(false, Recover(doc, p, ObjectEnd), Obj(ms), errors)
        else ReadComma(doc, extracts, p, ms, key, nodes)
  }

  /** The rest of the round, from behind the value. */
  function ReadComma(doc: Text, extracts: Text -> bool, pos: nat, members: seq<Member>, key: Text,
          nodes: nat): (r: Outcome)
    requires pos <= |doc|
    ensures r.WithinFrom(doc, pos)
    decreases |doc| - pos, 0
  {
    var comma := NextToken(doc, pos);
    if comma.kind != ObjectEnd && comma.kind != ArraySeparator && comma.kind != Comment then
      FailAndRecover(doc, MissingCommaOrBrace, comma, None, ObjectEnd, Obj(members))
    else
      var last := if comma.kind == Comment then SkipComments(doc, comma.end) else comma;
      if last.kind == ObjectEnd then Done(true, last.end, Obj(members), [])
      else ReadMembers(doc, extracts, last.end, members, key, nodes)
  }

  /** `readArray`. */
  function ReadArray(doc: Text, extracts: Text -> bool, pos: nat, nodes: nat): (r: Outcome)
    requires pos <= |doc|
    ensures r.WithinFrom(doc, pos)
    decreases |doc| - pos, 4
  {
    var p := SkipSpaces(doc, pos);
    if Has(doc, p, {RBRACKET}) then Done(true, NextToken(doc, p).end, Arr([]), [])
    else ReadItems(doc, extracts, p, [], nodes)
  }

  /** The loop of `readArray`, entered with the items read so far. */
  function ReadItems(doc: Text, extracts: Text -> bool, pos: nat, items: seq<Value>, nodes: nat): (r: Outcome)
    requires pos <= |doc|
    ensures r.WithinFrom(doc, pos)
    decreases |doc| - pos, 3
  {
    match ReadValue(doc, extracts, pos, Null, nodes + 1)
    case Thrown => Thrown
    case Done(ok, p, v, errors) =>
      var more := items + [v];
      if !ok then Done(false, Recover(doc, p, ArrayEnd), Arr(more), errors)
      else
        var t := SkipComments(doc, p);
        if t.kind != ArraySeparator && t.kind != ArrayEnd then
          FailAndRecover(doc, MissingCommaOrBracket, t, None, ArrayEnd, Arr(more))
        else if t.kind == ArrayEnd then Done(true, t.end, Arr(more), [])
        else ReadItems(doc, extracts, t.end, more, nodes)
  }

  /** `parse` into a root that holds `root` beforehand; the cursor ends behind one more token. */
  function Parse(doc: Text, extracts: Text -> bool, root: Value): (r: Outcome)
    ensures r.WithinFrom(doc, 0)
  {
    match ReadValue(doc, extracts, 0, root, 1)
    case Thrown => Thrown
    case Done(ok, p, v, errors) => Done(ok, SkipComments(doc, p).end, v, errors)
  }
}
