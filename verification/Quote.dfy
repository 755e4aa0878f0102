/**
 * JSON strings (section 7 of RFC 8259): the writer's `valueToQuotedStringN` and the reader's
 * `readString` and `decodeString`.
 */
module Quote {
  import opened Bytes
  import opened Utf8
  import Decimal

  const LOWER_B: Byte := 0x62
  const LOWER_F: Byte := 0x66
  const LOWER_N: Byte := 0x6E
  const LOWER_R: Byte := 0x72
  const LOWER_T: Byte := 0x74
  const LOWER_U: Byte := 0x75
  const BS: Byte := 0x08
  const FF: Byte := 0x0C

  // ---------- the writer ----------

  function HexDigit(n: nat): (b: Byte)
    requires n < 16
  {
    if n < 10 then ZERO + n else 0x61 + (n - 10)
  }

  /** `toHex16Bit`; the table `hex2` holds the two lower-case hexadecimal digits of each octet. */
  function ToHex16Bit(x: nat): (t: Text)
    ensures |t| == 4
  {
    var hi := x / 0x100 % 0x100;
    var lo := x % 0x100;
    [HexDigit(hi / 16), HexDigit(hi % 16), HexDigit(lo / 16), HexDigit(lo % 16)]
  }

  function UnicodeEscape(x: nat): (t: Text)
    ensures |t| == 6
  {
    [BACKSLASH, LOWER_U] + ToHex16Bit(x)
  }

  /** What the writer appends for a code point it does not handle by a short escape. */
  function EscapedCodePoint(cp: nat): (t: Text)
    ensures t != []
  {
    if 0x20 <= cp < 0x80 then [cp]
    else if cp < 0x10000 then UnicodeEscape(cp)
    else UnicodeEscape((cp - 0x10000) / 0x400 + 0xD800) + UnicodeEscape((cp - 0x10000) % 0x400 + 0xDC00)
  }

  /** The letter of the two-character escape of b; 0 when b has none. */
  function ShortEscape(b: Byte): Byte
  {
    if b == QUOTE then QUOTE
    else if b == BACKSLASH then BACKSLASH
    else if b == BS then LOWER_B
    else if b == FF then LOWER_F
    else if b == LF then LOWER_N
    else if b == CR then LOWER_R
    else if b == TAB then LOWER_T
    else 0
  }

  /** One round of the writer's loop: the text appended and the bytes passed. */
  function Unit(s: Text): (r: (Text, nat))
    requires s != []
    ensures r.0 != [] && 1 <= r.1 <= |s|
  {
    if ShortEscape(s[0]) != 0 then ([BACKSLASH, ShortEscape(s[0])], 1)
    else (EscapedCodePoint(Scan(s).0), Scan(s).1)
  }

  function QuoteBody(s: Text): Text
    decreases |s|
  {
    if s == [] then [] else Unit(s).0 + QuoteBody(s[Unit(s).1..])
  }

  function Quoted(s: Text): Text { [QUOTE] + (QuoteBody(s) + [QUOTE]) }

  function SignedChar(b: Byte): int { if b < 0x80 then b else b - 0x100 }

  /** `isAnyCharRequiredQuoting`: with a signed `char` it holds of every non-empty string. */
  method IsAnyCharRequiredQuoting(s: Text) returns (required: bool)
    ensures required <==> s != []
  {
    for cur := 0 to |s|
      invariant cur == 0
    {
      if s[cur] == BACKSLASH || s[cur] == QUOTE || SignedChar(s[cur]) < SPACE || s[cur] < 0x80 {
        return true;
      }
    }
    return false;
  }

  /** `valueToQuotedStringN` of a non-null pointer to |value| bytes followed by a NUL. */
  method ValueToQuotedStringN(value: Text) returns (result: Text)
    ensures result == Quoted(value)
  {
    var required := IsAnyCharRequiredQuoting(value);
    if !required {
      return [QUOTE] + Decimal.CString(value + [0]) + [QUOTE];
    }
    result := [QUOTE];
    var c := 0;
    assert value[c..] == value;
    while c != |value|
      invariant 0 <= c <= |value|
      invariant result + QuoteBody(value[c..]) == [QUOTE] + QuoteBody(value)
      decreases |value| - c
    {
      QuoteStep(value, c, result);
      result, c := AppendUnit(value, c, result);
    }
    assert value[c..] == [] && QuoteBody(value[c..]) == [];
    assert result + [] == result;
    assert [QUOTE] + QuoteBody(value) + [QUOTE] == [QUOTE] + (QuoteBody(value) + [QUOTE]);
    result := result + [QUOTE];
  }

  lemma QuoteStep(value: Text, c: nat, result: Text)
    requires c < |value|
    ensures var (u, n) := Unit(value[c..]);
            c + n <= |value| && result + QuoteBody(value[c..]) == result + u + QuoteBody(value[c + n..])
  {
    hide Unit;
    var (u, n) := Unit(value[c..]);
    assert value[c..][n..] == value[c + n..];
    assert result + (u + QuoteBody(value[c + n..])) == result + u + QuoteBody(value[c + n..]);
  }

  /** One round of the writer's loop. */
  method AppendUnit(value: Text, at: nat, before: Text) returns (result: Text, c: nat)
    requires at < |value|
    ensures result == before + Unit(value[at..]).0
    ensures c == at + Unit(value[at..]).1
  {
    c := at;
    var escape := ShortEscape(value[c]);
    if escape != 0 {
      result := before + [BACKSLASH, escape];
    } else {
      var scanned := Scan(value[c..]);
      c := c + scanned.1 - 1;
      result := AppendCodePoint(before, scanned.0);
    }
    c := c + 1;
  }

  /** The default case of the writer's switch, after the scan. */
  method AppendCodePoint(before: Text, scanned: nat) returns (result: Text)
    ensures result == before + EscapedCodePoint(scanned)
  {
    var cp := scanned;
    if cp < 0x80 && cp >= 0x20 {
      result := before + [cp];
    } else if cp < 0x10000 {
      result := before + [BACKSLASH, LOWER_U];
      result := result + ToHex16Bit(cp);
    } else {
      cp := cp - 0x10000;
      result := before + [BACKSLASH, LOWER_U];
      result := result + ToHex16Bit(cp / 0x400 + 0xD800);
      result := result + [BACKSLASH, LOWER_U];
      result := result + ToHex16Bit(cp % 0x400 + 0xDC00);
    }
  }

  // ---------- the reader ----------

  /**
   * `readString` from just behind the opening quote: the cursor it stops at and whether the
   * last character read was a closing quote.
   */
  function StringEnd(doc: Text, current: nat): (r: (nat, bool))
    requires current <= |doc|
    ensures current <= r.0 <= |doc|
    ensures r.1 ==> current < r.0 && doc[r.0 - 1] == QUOTE
    decreases |doc| - current
  {
    if current == |doc| then (current, false)
    else if doc[current] == BACKSLASH then StringEnd(doc, if current + 1 < |doc| then current + 2 else current + 1)
    else if doc[current] == QUOTE then (current + 1, true)
    else StringEnd(doc, current + 1)
  }

  datatype StringError =
    | EmptyEscape
    | BadEscape
    | FourDigitsExpected
    | HexDigitExpected
    | SixCharactersExpected
    | SecondEscapeExpected

  datatype UnicodeResult = Unicode(cp: nat, current: nat) | BadUnicode(kind: StringError, at: nat)

  /** The value of a hexadecimal digit; -1 for any other byte. */
  function HexValue(c: Byte): (v: int)
    ensures -1 <= v < 16
  {
    if ZERO <= c <= ZERO + 9 then c - ZERO
    else if 0x61 <= c <= 0x66 then c - 0x61 + 10
    else if 0x41 <= c <= 0x46 then c - 0x41 + 10
    else -1
  }

  function HexDigits(doc: Text, current: nat, count: nat, unicode: nat): (r: UnicodeResult)
    requires current + count <= |doc|
    ensures r.Unicode? ==> r.current == current + count
    decreases count
  {
    if count == 0 then Unicode(unicode, current)
    else if HexValue(doc[current]) < 0 then BadUnicode(HexDigitExpected, current + 1)
    else HexDigits(doc, current + 1, count - 1, unicode * 16 + HexValue(doc[current]))
  }

  /** `decodeUnicodeEscapeSequence`. */
  function UnicodeSequence(doc: Text, current: nat, end: nat): (r: UnicodeResult)
    requires current <= end <= |doc|
    ensures r.Unicode? ==> current < r.current <= end
  {
    if end - current < 4 then BadUnicode(FourDigitsExpected, current) else HexDigits(doc, current, 4, 0)
  }

  /** `decodeUnicodeCodePoint`. */
  function UnicodePoint(doc: Text, current: nat, end: nat): (r: UnicodeResult)
    requires current <= end <= |doc|
    ensures r.Unicode? ==> current < r.current <= end
  {
    match UnicodeSequence(doc, current, end)
    case BadUnicode(kind, at) => BadUnicode(kind, at)
    case Unicode(high, next) =>
      if !(0xD800 <= high <= 0xDBFF) then Unicode(high, next)
      else if end - next < 6 then BadUnicode(SixCharactersExpected, next)
      else if doc[next] != BACKSLASH then BadUnicode(SecondEscapeExpected, next + 1)
      else if doc[next + 1] != LOWER_U then BadUnicode(SecondEscapeExpected, next + 2)
      else
        match UnicodeSequence(doc, next + 2, end)
        case BadUnicode(kind, at) => BadUnicode(kind, at)
        case Unicode(low, after) => Unicode(0x10000 + high % 0x400 * 0x400 + low % 0x400, after)
  }

  datatype StringResult = Decoded(t: Text) | Undecodable(kind: StringError, at: nat)
  {
    function Prepend(before: Text): StringResult
    {
      match this
      case Decoded(t) => Decoded(before + t)
      case Undecodable(kind, at) => this
    }
  }

  lemma PrependTwice(r: StringResult, a: Text, b: Text)
    ensures r.Prepend(b).Prepend(a) == r.Prepend(a + b)
  {
    if r.Decoded? {
      assert a + (b + r.t) == (a + b) + r.t;
    }
  }

  /** The byte a two-character escape stands for; 0 when the reader knows no such escape. */
  function ShortUnescape(escape: Byte): Byte
  {
    if escape == QUOTE then QUOTE
    else if escape == SLASH then SLASH
    else if escape == BACKSLASH then BACKSLASH
    else if escape == LOWER_B then BS
    else if escape == LOWER_F then FF
    else if escape == LOWER_N then LF
    else if escape == LOWER_R then CR
    else if escape == LOWER_T then TAB
    else 0
  }

  /** `decodeString` between the quotes: doc[current..end]. */
  function DecodeBody(doc: Text, current: nat, end: nat): StringResult
    requires current <= end <= |doc|
    decreases end - current
  {
    if current == end || doc[current] == QUOTE then Decoded([])
    else if doc[current] != BACKSLASH then DecodeBody(doc, current + 1, end).Prepend([doc[current]])
    else if current + 1 == end then Undecodable(EmptyEscape, current + 1)
    else
      var escape := doc[current + 1];
      if escape == LOWER_U then
        match UnicodePoint(doc, current + 2, end)
        case BadUnicode(kind, at) => Undecodable(kind, at)
        case Unicode(cp, next) => DecodeBody(doc, next, end).Prepend(CodePointToUtf8(cp))
      else if ShortUnescape(escape) != 0 then DecodeBody(doc, current + 2, end).Prepend([ShortUnescape(escape)])
      else Undecodable(BadEscape, current + 2)
  }

  // ---------- what is written ----------

  predicate Plain(t: Text) { forall b | b in t :: 0x20 <= b <= 0x7F }

  lemma EscapeIsPlain(x: nat)
    ensures Plain(UnicodeEscape(x)) && 0x7F !in UnicodeEscape(x)
  {
  }

  lemma CodePointIsPlain(cp: nat)
    ensures Plain(EscapedCodePoint(cp)) && (0x7F in EscapedCodePoint(cp) <==> cp == 0x7F)
  {
    if 0x10000 <= cp {
      EscapeIsPlain((cp - 0x10000) / 0x400 + 0xD800);
      EscapeIsPlain((cp - 0x10000) % 0x400 + 0xDC00);
    } else {
      EscapeIsPlain(cp);
    }
  }

  lemma UnitIsPlain(s: Text)
    requires s != []
    ensures Plain(Unit(s).0) && (0x7F in Unit(s).0 <==> Scan(s).0 == 0x7F) && Unit(s).1 == Scan(s).1
  {
    CodePointIsPlain(Scan(s).0);
  }

  lemma PlainConcat(a: Text, b: Text)
    requires Plain(a) && Plain(b)
    ensures Plain(a + b) && (0x7F in a + b <==> 0x7F in a || 0x7F in b)
  {
  }

  /**
   * For arbitrary bytes the output is seven-bit text without control characters, except that
   * DEL is copied: it is printable exactly when the writer's loop meets no U+007F.
   */
  lemma {:induction false} QuoteBodyIsPlain(s: Text)
    ensures Plain(QuoteBody(s))
    ensures 0x7F in QuoteBody(s) <==> 0x7F in CodePoints(s)
    decreases |s|
  {
    if s != [] {
      var (u, n) := Unit(s);
      UnitIsPlain(s);
      QuoteBodyIsPlain(s[n..]);
      PlainConcat(u, QuoteBody(s[n..]));
      assert CodePoints(s) == [Scan(s).0] + CodePoints(s[n..]);
    }
  }

  predicate Printable(t: Text) { forall b | b in t :: 0x20 <= b <= 0x7E }

  lemma BetweenQuotesIsPrintable(body: Text)
    requires Plain(body)
    ensures Printable([QUOTE] + (body + [QUOTE])) <==> 0x7F !in body
  {
    if 0x7F in body {
      assert 0x7F in [QUOTE] + (body + [QUOTE]);
    }
  }

  /** One character of well-formed text is seven bits in one byte, or bytes of eight bits only. */
  lemma FirstCharacter(s: Text)
    requires CharLength(s) > 0
    ensures Scan(s).1 == CharLength(s)
    ensures if CharLength(s) == 1 then Scan(s).0 == s[0]
            else Scan(s).0 >= 0x80 && forall b | b in s[..CharLength(s)] :: b >= 0x80
  {
    hide Scan;
    EncodedOfScan(s);
  }

  lemma {:induction false} DelInCodePoints(s: Text)
    requires WellFormed(s)
    ensures 0x7F in CodePoints(s) <==> 0x7F in s
    decreases |s|
  {
    hide Scan, CharLength;
    if s != [] {
      var n := CharLength(s);
      FirstCharacter(s);
      DelInCodePoints(s[n..]);
      assert s == s[..n] + s[n..];
      assert n == 1 ==> s[..n] == [s[0]];
    }
  }

  /**
   * The quoted text is printable exactly when the writer's loop meets no U+007F, which well-formed
   * text holds exactly as the byte DEL.
   */
  lemma QuotedIsPrintable(s: Text)
    ensures Printable(Quoted(s)) <==> 0x7F !in CodePoints(s)
    ensures WellFormed(s) ==> (Printable(Quoted(s)) <==> 0x7F !in s)
  {
    hide CodePoints, WellFormed, QuoteBody, Printable;
    QuoteBodyIsPlain(s);
    BetweenQuotesIsPrintable(QuoteBody(s));
    if WellFormed(s) {
      DelInCodePoints(s);
    }
  }

  /** DEL really is copied as it stands. */
  lemma DelIsNotEscaped()
    ensures Quoted([0x7F]) == [QUOTE, 0x7F, QUOTE]
  {
    assert QuoteBody([0x7F]) == Unit([0x7F]).0 + QuoteBody([]);
  }
}
