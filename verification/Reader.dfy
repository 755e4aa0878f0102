/**
 * `Json::Reader` under default Features: the cursor, the node stack and the error list, each
 * method proved against the function of ReaderSpec that says what it does.
 */
module Reader {
  import opened Bytes
  import Decimal
  import Utf8
  import opened Options
  import opened Quote
  import opened JsonValue
  import S = ReaderSpec

  type Token = S.Token
  type ErrorInfo = S.ErrorInfo

  class Reader {
    var document: Text // begin_ up to end_
    var current: nat
    var nodes: seq<Value> // the values under construction, the current one last
    var errors: seq<ErrorInfo>
    const extracts: Text -> bool

    ghost predicate Valid()
      reads this
    {
      current <= |document|
    }

    constructor (extracts: Text -> bool)
      ensures Valid() && this.extracts == extracts && errors == [] && nodes == []
    {
      this.extracts := extracts;
      document, current, nodes, errors := [], 0, [], [];
    }

    // ---------- characters ----------

    method GetNextChar() returns (c: Byte)
      requires Valid()
      modifies this`current
      ensures Valid()
      ensures if old(current) == |document| then c == 0 && current == old(current)
              else c == document[old(current)] && current == old(current) + 1
    {
      if current == |document| {
        return 0;
      }
      c := document[current];
      current := current + 1;
    }

    method SkipSpaces()
      requires Valid()
      modifies this`current
      ensures current == S.SkipSpaces(document, old(current))
    {
      while current != |document|
        invariant Valid() && S.SkipSpaces(document, current) == S.SkipSpaces(document, old(current))
        decreases |document| - current
      {
        var c := document[current];
        if c == SPACE || c == TAB || c == CR || c == LF {
          current := current + 1;
        } else {
          break;
        }
      }
    }

    method Match(pattern: Text) returns (ok: bool)
      requires Valid()
      modifies this`current
      ensures ok == S.Matches(document, old(current), pattern)
      ensures current == old(current) + if ok then |pattern| else 0
    {
      if |document| - current < |pattern| {
        return false;
      }
      var index := |pattern|;
      while index > 0
        invariant 0 <= index <= |pattern| && current == old(current)
        invariant document[current + index..current + |pattern|] == pattern[index..]
      {
        index := index - 1;
        if document[current + index] != pattern[index] {
          assert document[current..current + |pattern|][index] != pattern[index];
          return false;
        }
        assert document[current + index..current + |pattern|]
            == [document[current + index]] + document[current + index + 1..current + |pattern|];
        assert pattern[index..] == [pattern[index]] + pattern[index + 1..];
      }
      assert document[current..current + |pattern|] == pattern;
      current := current + |pattern|;
      return true;
    }

    method ReadCStyleComment() returns (ok: bool)
      requires Valid()
      modifies this`current
      ensures Valid() && (current, ok) == S.CStyleEnd(document, old(current))
    {
      while current + 1 < |document|
        invariant Valid() && S.CStyleEnd(document, current) == S.CStyleEnd(document, old(current))
        decreases |document| - current
      {
        var c := GetNextChar();
        if c == STAR && document[current] == SLASH {
          break;
        }
      }
      var last := GetNextChar();
      return last == SLASH;
    }

    method ReadCppStyleComment() returns (ok: bool)
      requires Valid()
      modifies this`current
      ensures Valid() && ok && current == S.CppStyleEnd(document, old(current))
    {
      while current != |document|
        invariant Valid() && S.CppStyleEnd(document, current) == S.CppStyleEnd(document, old(current))
        decreases |document| - current
      {
        var c := GetNextChar();
        if c == LF {
          break;
        }
        if c == CR {
          if current != |document| && document[current] == LF {
            var eol := GetNextChar();
          }
          break;
        }
      }
      return true;
    }

    method ReadComment() returns (ok: bool)
      requires Valid()
      modifies this`current
      ensures Valid() && (current, ok) == S.CommentEnd(document, old(current))
    {
      var c := GetNextChar();
      ok := false;
      if c == STAR {
        ok := ReadCStyleComment();
      } else if c == SLASH {
        ok := ReadCppStyleComment();
      }
    }

    /** The character at the cursor and the pointer p behind it; NUL at the end. */
    ghost predicate Looking(c: Byte, p: nat)
      reads this
    {
      if current < |document| then c == document[current] && p == current + 1
      else c == 0 && p == current == |document|
    }

    /** `c = (current_ = p) < end_ ? *p++ : '\0'`. */
    method Look(p: nat) returns (c: Byte, next: nat)
      requires p <= |document|
      modifies this`current
      ensures current == p && Looking(c, next)
    {
      current := p;
      if current < |document| {
        c, next := document[p], p + 1;
      } else {
        c, next := 0, p;
      }
    }

    /** `while (c >= '0' && c <= '9')` around the same step. */
    method LookPastDigits(c0: Byte, p0: nat) returns (c: Byte, p: nat)
      requires Valid() && Looking(c0, p0)
      modifies this`current
      ensures Looking(c, p) && current == S.DigitsEnd(document, old(current))
    {
      c, p := c0, p0;
      while c >= ZERO && c <= ZERO + 9
        invariant Looking(c, p) && S.DigitsEnd(document, current) == S.DigitsEnd(document, old(current))
        decreases |document| - current
      {
        c, p := Look(p);
      }
    }

    method LookPastFraction(c0: Byte, p0: nat) returns (c: Byte, p: nat)
      requires Valid() && Looking(c0, p0)
      modifies this`current
      ensures Looking(c, p) && current == S.FractionEnd(document, old(current))
    {
      c, p := c0, p0;
      if c == DOT {
        c, p := Look(p);
        c, p := LookPastDigits(c, p);
      }
    }

    method LookPastExponent(c0: Byte, p0: nat) returns (c: Byte, p: nat)
      requires Valid() && Looking(c0, p0)
      modifies this`current
      ensures Looking(c, p) && current == S.ExponentEnd(document, old(current))
    {
      hide S.DigitsEnd;
      c, p := c0, p0;
      if c == 0x65 || c == 0x45 {
        c, p := Look(p);
        if c == 0x2B || c == MINUS {
          c, p := Look(p);
        }
        c, p := LookPastDigits(c, p);
      }
    }

    method ReadNumber()
      requires Valid()
      modifies this`current
      ensures Valid() && current == S.NumberEnd(document, old(current))
    {
      hide S.DigitsEnd, S.FractionEnd, S.ExponentEnd;
      var c, p := Look(current);
      c, p := LookPastDigits(c, p);
      c, p := LookPastFraction(c, p);
      c, p := LookPastExponent(c, p);
    }

    method ReadString() returns (ok: bool)
      requires Valid()
      modifies this`current
      ensures Valid() && (current, ok) == StringEnd(document, old(current))
    {
      var c: Byte := 0;
      while current != |document|
        invariant Valid() && c != QUOTE && StringEnd(document, current) == StringEnd(document, old(current))
        decreases |document| - current
      {
        c := GetNextChar();
        if c == BACKSLASH {
          var escaped := GetNextChar();
        } else if c == QUOTE {
          break;
        }
      }
      return c == QUOTE;
    }

    // ---------- tokens ----------

    /** `readToken`, which always returns true. */
    method ReadToken() returns (token: Token)
      requires Valid()
      modifies this`current
      ensures Valid() && token == S.NextToken(document, old(current)) && current == token.end
    {
      SkipSpaces();
      var start := current;
      var c := GetNextChar();
      var ok := true;
      var kind: S.TokenType;
      if c == LBRACE {
        kind := S.ObjectBegin;
      } else if c == RBRACE {
        kind := S.ObjectEnd;
      } else if c == LBRACKET {
        kind := S.ArrayBegin;
      } else if c == RBRACKET {
        kind := S.ArrayEnd;
      } else if c == QUOTE {
        kind := S.StringToken;
        ok := ReadString();
      } else if c == SLASH {
        kind := S.Comment;
        ok := ReadComment();
      } else if Decimal.IsDigit(c) || c == MINUS {
        kind := S.NumberToken;
        ReadNumber();
      } else if c == LOWER_T {
        kind := S.TrueToken;
        ok := Match(S.RUE);
      } else if c == LOWER_F {
        kind := S.FalseToken;
        ok := Match(S.ALSE);
      } else if c == LOWER_N {
        kind := S.NullToken;
        ok := Match(S.ULL);
      } else if c == COMMA {
        kind := S.ArraySeparator;
      } else if c == COLON {
        kind := S.MemberSeparator;
      } else if c == 0 {
        kind := S.EndOfStream;
      } else {
        kind := S.ErrorToken;
        ok := false;
      }
      if !ok {
        kind := S.ErrorToken;
      }
      token := S.Token(kind, start, current);
    }

    method SkipCommentTokens() returns (token: Token)
      requires Valid()
      modifies this`current
      ensures Valid() && token == S.SkipComments(document, old(current)) && current == token.end
    {
      token := ReadToken();
      while token.kind == S.Comment
        invariant Valid() && current == token.end
        invariant S.SkipComments(document, old(current))
               == if token.kind == S.Comment then S.SkipComments(document, current) else token
        decreases |document| - current, token.kind == S.Comment
      {
        token := ReadToken();
      }
    }

    // ---------- errors ----------

    method AddError(kind: S.ErrorKind, token: Token, extra: Option<nat>) returns (ok: bool)
      modifies this`errors
      ensures !ok && errors == old(errors) + [S.ErrorInfo(kind, token, extra)]
    {
      errors := errors + [S.ErrorInfo(kind, token, extra)];
      return false;
    }

    method RecoverFromError(skipUntil: S.TokenType) returns (ok: bool)
      requires Valid()
      modifies this`current, this`errors
      ensures Valid() && !ok && errors == old(errors)
      ensures current == S.Recover(document, old(current), skipUntil)
    {
      var errorCount := |errors|;
      while true
        invariant Valid() && errors == old(errors)
        invariant S.Recover(document, current, skipUntil) == S.Recover(document, old(current), skipUntil)
        decreases |document| - current
      {
        var skip := ReadToken();
        if skip.kind == skipUntil || skip.kind == S.EndOfStream {
          break;
        }
      }
      errors := errors[..errorCount];
      return false;
    }

    method AddErrorAndRecover(kind: S.ErrorKind, token: Token, skipUntil: S.TokenType) returns (ok: bool)
      requires Valid()
      modifies this`current, this`errors
      ensures Valid() && !ok && errors == old(errors) + [S.ErrorInfo(kind, token, None)]
      ensures current == S.Recover(document, old(current), skipUntil)
    {
      ok := AddError(kind, token, None);
      ok := RecoverFromError(skipUntil);
    }

    // ---------- decoding ----------

    /** The error, if any, that a failed decoding has added. */
    ghost predicate Added(kind: S.ErrorKind, token: Token, at: nat, before: seq<ErrorInfo>)
      reads this
    {
      errors == before + [S.ErrorInfo(kind, token, Some(at))]
    }

    method DecodeUnicodeEscapeSequence(token: Token, at: nat, end: nat) returns (ok: bool, next: nat, unicode: nat)
      requires at <= end <= |document|
      modifies this`errors
      ensures match UnicodeSequence(document, at, end)
              case Unicode(cp, p) => ok && next == p && unicode == cp && errors == old(errors)
              case BadUnicode(kind, p) => !ok && Added(S.InString(kind), token, p, old(errors))
    {
      next, unicode := at, 0;
      if end - at < 4 {
        ok := AddError(S.InString(FourDigitsExpected), token, Some(at));
        return;
      }
      for index := 0 to 4
        invariant next == at + index && errors == old(errors)
        invariant HexDigits(document, at, 4, 0) == HexDigits(document, next, 4 - index, unicode)
      {
        var c := document[next];
        next := next + 1;
        unicode := unicode * 16;
        var digit := DigitOf(c);
        if digit < 0 {
          ok := AddError(S.InString(HexDigitExpected), token, Some(next));
          return;
        }
        unicode := unicode + digit;
      }
      ok := true;
    }

    /** The hexadecimal digit c, or -1. */
    static method DigitOf(c: Byte) returns (digit: int)
      ensures digit == HexValue(c)
    {
      if c >= ZERO && c <= ZERO + 9 {
        digit := c - ZERO;
      } else if c >= 0x61 && c <= 0x66 {
        digit := c - 0x61 + 10;
      } else if c >= 0x41 && c <= 0x46 {
        digit := c - 0x41 + 10;
      } else {
        digit := -1;
      }
    }

    method DecodeUnicodeCodePoint(token: Token, at: nat, end: nat) returns (ok: bool, next: nat, unicode: nat)
      requires at <= end <= |document|
      modifies this`errors
      ensures match UnicodePoint(document, at, end)
              case Unicode(cp, p) => ok && next == p && unicode == cp && errors == old(errors)
              case BadUnicode(kind, p) => !ok && Added(S.InString(kind), token, p, old(errors))
    {
      hide UnicodeSequence;
      ok, next, unicode := DecodeUnicodeEscapeSequence(token, at, end);
      if !ok {
        return;
      }
      if unicode >= 0xD800 && unicode <= 0xDBFF {
        if end - next < 6 {
          ok := AddError(S.InString(SixCharactersExpected), token, Some(next));
          return;
        }
        var second := document[next] == BACKSLASH;
        next := next + 1;
        if second {
          second := document[next] == LOWER_U;
          next := next + 1;
        }
        if second {
          var surrogatePair;
          ok, next, surrogatePair := DecodeUnicodeEscapeSequence(token, next, end);
          if ok {
            unicode := 0x10000 + unicode % 0x400 * 0x400 + surrogatePair % 0x400;
          } else {
            return;
          }
        } else {
          ok := AddError(S.InString(SecondEscapeExpected), token, Some(next));
          return;
        }
      }
      ok := true;
    }

    method DecodeStringTo(token: Token) returns (ok: bool, decoded: Text)
      requires token.start + 2 <= token.end <= |document|
      modifies this`errors
      ensures match DecodeBody(document, token.start + 1, token.end - 1)
              case Decoded(t) => ok && decoded == t && errors == old(errors)
              case Undecodable(kind, at) => !ok && Added(S.InString(kind), token, at, old(errors))
    {
      hide UnicodePoint, Utf8.CodePointToUtf8;
      decoded := [];
      var at := token.start + 1;
      var end := token.end - 1;
      ghost var whole := DecodeBody(document, at, end);
      while at != end
        invariant token.start + 1 <= at <= end && errors == old(errors)
        invariant DecodeBody(document, at, end).Prepend(decoded) == whole
        decreases end - at
      {
        ghost var rest, before := DecodeBody(document, at, end), decoded;
        var c := document[at];
        at := at + 1;
        if c == QUOTE {
          break;
        } else if c == BACKSLASH {
          if at == end {
            ok := AddError(S.InString(EmptyEscape), token, Some(at));
            return;
          }
          var escape := document[at];
          at := at + 1;
          if escape == LOWER_U {
            var unicode;
            ok, at, unicode := DecodeUnicodeCodePoint(token, at, end);
            if !ok {
              return;
            }
            decoded := decoded + Utf8.CodePointToUtf8(unicode);
            PrependTwice(DecodeBody(document, at, end), before, Utf8.CodePointToUtf8(unicode));
          } else if ShortUnescape(escape) != 0 {
            decoded := decoded + [ShortUnescape(escape)];
            PrependTwice(DecodeBody(document, at, end), before, [ShortUnescape(escape)]);
          } else {
            ok := AddError(S.InString(BadEscape), token, Some(at));
            return;
          }
        } else {
          decoded := decoded + [c];
          PrependTwice(DecodeBody(document, at, end), before, [c]);
        }
      }
      ok := true;
      assert decoded + [] == decoded;
    }

    method DecodeNumberTo(token: Token) returns (ok: bool, decoded: Value)
      requires token.start < token.end <= |document|
      modifies this`errors
      ensures match S.NumberValue(document[token.start..token.end], extracts)
              case Some(v) => ok && decoded == v && errors == old(errors)
              case None => !ok && errors == old(errors) + [S.ErrorInfo(S.NotANumber, token, None)]
    {
      hide Decimal.NumberOf;
      decoded := Null;
      var number := Decimal.DecodeNumber(document[token.start..token.end]);
      match number
      case Signed(i) =>
        ok, decoded := true, Int(i);
      case Unsigned(u) =>
        ok, decoded := true, UInt(u);
      case NotAnInteger =>
        // decodeDouble
        if !extracts(document[token.start..token.end]) {
          ok := AddError(S.NotANumber, token, None);
          return;
        }
        ok, decoded := true, Real(document[token.start..token.end]);
    }

    // ---------- values ----------

    /** `currentValue() = v`, by `swapPayload`. */
    method SetCurrent(v: Value)
      requires nodes != []
      modifies this`nodes
      ensures nodes == old(nodes)[..|old(nodes)| - 1] + [v]
    {
      nodes := nodes[..|nodes| - 1] + [v];
    }

    /** `nodes_.push`; the pushed value is stored back into its parent when it is popped. */
    method Push(v: Value)
      modifies this`nodes
      ensures nodes == old(nodes) + [v]
    {
      nodes := nodes + [v];
    }

    /** `nodes_.pop`. */
    method Pop() returns (v: Value)
      requires nodes != []
      modifies this`nodes
      ensures v == old(nodes)[|old(nodes)| - 1] && nodes == old(nodes)[..|old(nodes)| - 1]
    {
      v := nodes[|nodes| - 1];
      nodes := nodes[..|nodes| - 1];
    }

    /**
     * The outcome r of reading a value, on top of the nodes below it: the cursor, the current
     * value and the errors added are those of r, and the stack is restored.
     */
    ghost predicate After(r: S.Outcome, thrown: bool, ok: bool, below: seq<Value>, before: seq<ErrorInfo>)
      reads this
    {
      match r
      case Thrown => thrown && errors == before
      case Done(o, p, v, added) =>
        !thrown && ok == o && current == p && nodes == below + [v] && errors == before + added
    }

    /** The cases of the switch of `readValue` that read a scalar. */
    method ReadScalar(token: Token) returns (successful: bool)
      requires token.start <= token.end <= |document|
      requires token.kind == S.NumberToken ==> token.start < token.end
      requires token.kind == S.StringToken ==> token.start + 2 <= token.end
      requires Valid() && nodes != [] && current == token.end
      modifies this`nodes, this`errors
      ensures Valid()
      ensures After(S.ReadScalar(document, extracts, token, old(nodes)[|old(nodes)| - 1]), false, successful,
                    old(nodes)[..|old(nodes)| - 1], old(errors))
    {
      hide DecodeBody, S.NumberValue;
      successful := true;
      assert nodes == nodes[..|nodes| - 1] + [nodes[|nodes| - 1]];
      if token.kind == S.NumberToken {
        var decoded;
        successful, decoded := DecodeNumberTo(token);
        if successful {
          SetCurrent(decoded);
        }
      } else if token.kind == S.StringToken {
        var decoded;
        successful, decoded := DecodeStringTo(token);
        if successful {
          SetCurrent(Str(decoded));
        }
      } else if token.kind == S.TrueToken {
        SetCurrent(Bool(true));
      } else if token.kind == S.FalseToken {
        SetCurrent(Bool(false));
      } else if token.kind == S.NullToken {
        SetCurrent(Null);
      } else {
        successful := AddError(S.ValueExpected, token, None);
      }
    }

    method ReadValue() returns (thrown: bool, successful: bool)
      requires Valid() && nodes != []
      modifies this`current, this`nodes, this`errors
      ensures Valid()
      ensures After(S.ReadValue(document, extracts, old(current), old(nodes)[|old(nodes)| - 1], |old(nodes)|),
                    thrown, successful, old(nodes)[..|old(nodes)| - 1], old(errors))
      decreases |document| - current, 2
    {
      hide S.SkipComments, S.ReadScalar, S.ReadMembers, S.ReadArray;
      thrown, successful := false, true;
      if |nodes| > S.STACK_LIMIT {
        return true, false;
      }
      var token := SkipCommentTokens();
      if token.kind == S.ObjectBegin {
        thrown, successful := ReadObject();
      } else if token.kind == S.ArrayBegin {
        thrown, successful := ReadArray();
      } else {
        successful := ReadScalar(token);
      }
    }

    method ReadObject() returns (thrown: bool, ok: bool)
      requires Valid() && nodes != []
      modifies this`current, this`nodes, this`errors
      ensures Valid()
      ensures After(S.ReadMembers(document, extracts, old(current), [], [], |old(nodes)|),
                    thrown, ok, old(nodes)[..|old(nodes)| - 1], old(errors))
      decreases |document| - current, 2
    {
      hide S.ReadMembers;
      thrown, ok := false, false;
      ghost var below := nodes[..|nodes| - 1];
      ghost var whole := S.ReadMembers(document, extracts, current, [], [], |nodes|);
      var name: Text := [];
      SetCurrent(Obj([]));
      var again := true;
      while again
        invariant Valid() && (again ==> current >= old(current) && errors == old(errors))
        invariant again ==> |nodes| == |old(nodes)| && nodes[..|nodes| - 1] == below && nodes[|nodes| - 1].Obj?
        invariant again ==>
          S.ReadMembers(document, extracts, current, nodes[|nodes| - 1].members, name, |nodes|) == whole
        invariant !again ==> After(whole, thrown, ok, below, old(errors))
        decreases again, |document| - current
      {
        thrown, ok, again, name := ReadField(name);
      }
    }

    /** One round of the loop of `readObject`, `last` being the name read before; `again` when it goes on. */
    method ReadField(last: Text) returns (thrown: bool, ok: bool, again: bool, name: Text)
      requires Valid() && nodes != [] && nodes[|nodes| - 1].Obj?
      modifies this`current, this`nodes, this`errors
      ensures Valid() && (again ==> current > old(current))
      ensures var n := |old(nodes)|; var below := old(nodes)[..n - 1];
              var r := S.ReadMembers(document, extracts, old(current), old(nodes)[n - 1].members, last, n);
              if !again then After(r, thrown, ok, below, old(errors))
              else && |nodes| == n && nodes[..n - 1] == below && nodes[n - 1].Obj? && errors == old(errors)
                   && r == S.ReadMembers(document, extracts, current, nodes[n - 1].members, name, n)
      decreases |document| - current, 1
    {
      hide S.NextToken, S.SkipComments, S.Recover, S.ReadMember, DecodeBody;
      thrown, ok, again, name := false, false, false, [];
      assert nodes == nodes[..|nodes| - 1] + [Obj(nodes[|nodes| - 1].members)];
      var tokenName := SkipCommentTokens();
      if tokenName.kind == S.ObjectEnd && last == [] {
        ok := true;
        return;
      }
      if tokenName.kind != S.StringToken {
        ok := AddErrorAndRecover(S.MissingBraceOrName, tokenName, S.ObjectEnd);
        return;
      }
      ok, name := DecodeStringTo(tokenName);
      if !ok {
        ok := RecoverFromError(S.ObjectEnd);
        return;
      }
      thrown, ok, again := ReadMember(name);
    }

    /** The round from behind the name on. */
    method ReadMember(name: Text) returns (thrown: bool, ok: bool, again: bool)
      requires Valid() && nodes != [] && nodes[|nodes| - 1].Obj?
      modifies this`current, this`nodes, this`errors
      ensures Valid() && (again ==> current > old(current))
      ensures var n := |old(nodes)|; var below := old(nodes)[..n - 1];
              var r := S.ReadMember(document, extracts, old(current), old(nodes)[n - 1].members, name, n);
              if !again then After(r, thrown, ok, below, old(errors))
              else && !thrown && |nodes| == n && nodes[..n - 1] == below && nodes[n - 1].Obj? && errors == old(errors)
                   && r == S.ReadMembers(document, extracts, current, nodes[n - 1].members, name, n)
      decreases |document| - current, 0
    {
      hide S.TokenAt, S.NextToken, S.Recover, S.ReadValue, S.ReadMembers, S.ReadComma, Put, GetOrNull, S.SkipComments;
      thrown, ok, again := false, false, false;
      assert nodes == nodes[..|nodes| - 1] + [Obj(nodes[|nodes| - 1].members)];
      var colon := ReadToken();
      if colon.kind != S.MemberSeparator {
        ok := AddErrorAndRecover(S.MissingColon, colon, S.ObjectEnd);
        return;
      }
      thrown, ok := ReadMemberValue(name);
      if thrown {
        return;
      }
      if !ok {
        ok := RecoverFromError(S.ObjectEnd);
        return;
      }
      ok, again := ReadComma(name);
    }

    /** The value behind a colon: pushed, read, popped and stored under its name. */
    method ReadMemberValue(name: Text) returns (thrown: bool, ok: bool)
      requires Valid() && nodes != [] && nodes[|nodes| - 1].Obj?
      modifies this`current, this`nodes, this`errors
      ensures Valid()
      ensures var n := |old(nodes)|; var members := old(nodes)[n - 1].members;
              match S.ReadValue(document, extracts, old(current), GetOrNull(members, name), n + 1)
              case Thrown => thrown && errors == old(errors)
              case Done(o, p, v, added) =>
                && !thrown && ok == o && current == p && errors == old(errors) + added
                && nodes == old(nodes)[..n - 1] + [Obj(Put(members, name, v))]
      decreases |document| - current, 3
    {
      hide S.ReadValue, Put, GetOrNull;
      var members := nodes[|nodes| - 1].members;
      ghost var before := nodes;
      Push(GetOrNull(members, name));
      assert nodes[..|nodes| - 1] == before;
      thrown, ok := ReadValue();
      if !thrown {
        var child := Pop();
        assert nodes == before;
        SetCurrent(Obj(Put(members, name, child)));
      }
    }

    /** The rest of the round, from behind the value. */
    method ReadComma(ghost name: Text) returns (ok: bool, again: bool)
      requires Valid() && nodes != [] && nodes[|nodes| - 1].Obj?
      modifies this`current, this`errors
      ensures Valid() && (again ==> current > old(current))
      ensures var n := |nodes|; var below := nodes[..n - 1]; var members := nodes[n - 1].members;
              var r := S.ReadComma(document, extracts, old(current), members, name, n);
              if !again then After(r, false, ok, below, old(errors))
              else errors == old(errors) && r == S.ReadMembers(document, extracts, current, members, name, n)
    {
      hide S.TokenAt, S.NextToken, S.Recover, S.ReadMembers;
      ok, again := true, false;
      assert nodes == nodes[..|nodes| - 1] + [Obj(nodes[|nodes| - 1].members)];
      var comma := ReadToken();
      if comma.kind != S.ObjectEnd && comma.kind != S.ArraySeparator && comma.kind != S.Comment {
        ok := AddErrorAndRecover(S.MissingCommaOrBrace, comma, S.ObjectEnd);
        return;
      }
      if comma.kind == S.Comment {
        comma := SkipCommentTokens();
      }
      again := comma.kind != S.ObjectEnd;
    }

    method ReadArray() returns (thrown: bool, ok: bool)
      requires Valid() && nodes != []
      modifies this`current, this`nodes, this`errors
      ensures Valid()
      ensures After(S.ReadArray(document, extracts, old(current), |old(nodes)|),
                    thrown, ok, old(nodes)[..|old(nodes)| - 1], old(errors))
      decreases |document| - current, 4
    {
      hide S.TokenAt, S.SkipComments, S.SkipSpaces, S.ReadItems;
      thrown, ok := false, false;
      ghost var below := nodes[..|nodes| - 1];
      SetCurrent(Arr([]));
      SkipSpaces();
      if current != |document| && document[current] == RBRACKET {
        var endArray := ReadToken();
        return false, true;
      }
      ghost var whole := S.ReadItems(document, extracts, current, [], |nodes|);
      var again := true;
      while again
        invariant Valid() && (again ==> current >= old(current))
        invariant again ==> |nodes| == |old(nodes)| && nodes[..|nodes| - 1] == below && nodes[|nodes| - 1].Arr?
        invariant again ==> errors == old(errors)
        invariant again ==> S.ReadItems(document, extracts, current, nodes[|nodes| - 1].items, |nodes|) == whole
        invariant !again ==> After(whole, thrown, ok, below, old(errors))
        decreases again, |document| - current
      {
        thrown, ok, again := ReadItem();
      }
    }

    /** One round of the loop of `readArray`; `again` when it goes on. */
    method ReadItem() returns (thrown: bool, ok: bool, again: bool)
      requires Valid() && nodes != [] && nodes[|nodes| - 1].Arr?
      modifies this`current, this`nodes, this`errors
      ensures Valid() && (again ==> current > old(current))
      ensures var n := |old(nodes)|; var below := old(nodes)[..n - 1];
              var r := S.ReadItems(document, extracts, old(current), old(nodes)[n - 1].items, n);
              if !again then After(r, thrown, ok, below, old(errors))
              else && |nodes| == n && nodes[..n - 1] == below && nodes[n - 1].Arr? && errors == old(errors)
                   && r == S.ReadItems(document, extracts, current, nodes[n - 1].items, n)
      decreases |document| - current, 3
    {
      hide S.TokenAt, S.SkipComments, S.Recover, S.ReadValue;
      thrown, ok, again := false, false, false;
      ghost var below := nodes[..|nodes| - 1];
      var items := nodes[|nodes| - 1].items;
      assert nodes == below + [Arr(items)];
      Push(Null);
      assert nodes[..|nodes| - 1] == below + [Arr(items)];
      thrown, ok := ReadValue();
      if thrown {
        return;
      }
      var child := Pop();
      SetCurrent(Arr(items + [child]));
      if !ok {
        ok := RecoverFromError(S.ArrayEnd);
        return;
      }
      var token := SkipCommentTokens();
      if token.kind != S.ArraySeparator && token.kind != S.ArrayEnd {
        ok := AddErrorAndRecover(S.MissingCommaOrBracket, token, S.ArrayEnd);
        return;
      }
      again := token.kind != S.ArrayEnd;
    }

    /** `parse`, without comment collection. */
    method Parse(doc: Text, root: Value) returns (thrown: bool, successful: bool, value: Value)
      modifies this
      ensures match S.Parse(doc, extracts, root)
              case Thrown => thrown && errors == []
              case Done(ok, p, v, added) =>
                !thrown && successful == ok && value == v && current == p && errors == added && nodes == [v]
    {
      document := doc;
      current := 0;
      errors := [];
      while nodes != []
        invariant document == doc && current == 0 && errors == []
      {
        var stale := Pop();
      }
      Push(root);
      value := root;
      thrown, successful := ReadValue();
      if thrown {
        return;
      }
      var token := SkipCommentTokens();
      value := nodes[0];
    }
  }
}
