/**
 * The strings the reader accepts, as sequences of pieces: the grammar of section 7 of RFC 8259,
 * except that every byte but the quote and the backslash may stand for itself, and that a high
 * surrogate may be followed by any `\u` escape. The reader is proved to accept exactly these, and
 * the writer to produce some of them.
 */
module StringSyntax {
  import opened Bytes
  import opened Options
  import opened Utf8
  import opened Quote

  datatype Piece =
    | Raw(b: Byte)
    | Short(letter: Byte)
    | Escape(hex: Text)
    | Pair(high: Text, low: Text)

  /** The letters of the two-character escapes and the bytes they stand for. */
  const ESCAPES: map<Byte, Byte> :=
    map[0x22 := 0x22, 0x5C := 0x5C, 0x2F := 0x2F, 0x62 := 0x08, 0x66 := 0x0C, 0x6E := 0x0A, 0x72 := 0x0D, 0x74 := 0x09]

  /** The hexadecimal digits of either case, and their values. */
  const HEX: map<Byte, nat> :=
    map[0x30 := 0, 0x31 := 1, 0x32 := 2, 0x33 := 3, 0x34 := 4, 0x35 := 5, 0x36 := 6, 0x37 := 7, 0x38 := 8, 0x39 := 9,
        0x61 := 10, 0x62 := 11, 0x63 := 12, 0x64 := 13, 0x65 := 14, 0x66 := 15,
        0x41 := 10, 0x42 := 11, 0x43 := 12, 0x44 := 13, 0x45 := 14, 0x46 := 15]

  predicate IsHex(b: Byte) { b in HEX }

  function HexDigitNumber(b: Byte): (v: nat)
    requires IsHex(b)
    ensures v < 16
  {
    HEX[b]
  }

  predicate Hex(h: Text) { |h| == 4 && IsHex(h[0]) && IsHex(h[1]) && IsHex(h[2]) && IsHex(h[3]) }

  function HexNumber(h: Text): (x: nat)
    requires Hex(h)
    ensures x < 0x10000
  {
    HexDigitNumber(h[0]) * 0x1000 + HexDigitNumber(h[1]) * 0x100 + HexDigitNumber(h[2]) * 0x10 + HexDigitNumber(h[3])
  }

  predicate HighSurrogate(x: nat) { 0xD800 <= x <= 0xDBFF }

  predicate PieceWf(x: Piece)
  {
    match x
    case Raw(b) => b != QUOTE && b != BACKSLASH
    case Short(letter) => letter in ESCAPES
    case Escape(hex) => Hex(hex) && !HighSurrogate(HexNumber(hex))
    case Pair(high, low) => Hex(high) && Hex(low) && HighSurrogate(HexNumber(high))
  }

  function EscapeText(h: Text): Text { [BACKSLASH, LOWER_U] + h }

  function PieceText(x: Piece): Text
  {
    match x
    case Raw(b) => [b]
    case Short(letter) => [BACKSLASH, letter]
    case Escape(hex) => EscapeText(hex)
    case Pair(high, low) => EscapeText(high) + EscapeText(low)
  }

  /** The code point of a surrogate pair. */
  function PairNumber(high: nat, low: nat): nat { 0x10000 + high % 0x400 * 0x400 + low % 0x400 }

  /** The bytes a piece stands for. */
  function PieceMeaning(x: Piece): Text
    requires PieceWf(x)
  {
    match x
    case Raw(b) => [b]
    case Short(letter) => [ESCAPES[letter]]
    case Escape(hex) => CodePointToUtf8(HexNumber(hex))
    case Pair(high, low) => CodePointToUtf8(PairNumber(HexNumber(high), HexNumber(low)))
  }

  predicate PiecesWf(xs: seq<Piece>) { forall x | x in xs :: PieceWf(x) }

  function PiecesText(xs: seq<Piece>): Text
  {
    if xs == [] then [] else PieceText(xs[0]) + PiecesText(xs[1..])
  }

  function PiecesMeaning(xs: seq<Piece>): Text
    requires PiecesWf(xs)
  {
    if xs == [] then [] else PieceMeaning(xs[0]) + PiecesMeaning(xs[1..])
  }

  // ---------- one piece ----------

  /** The tables of the reader are those of the grammar. */
  lemma DigitsAgree(b: Byte)
    ensures HexValue(b) == if IsHex(b) then HexDigitNumber(b) else -1
  {
  }

  lemma EscapesAgree(b: Byte)
    ensures ShortUnescape(b) == if b in ESCAPES then ESCAPES[b] else 0
    ensures b in ESCAPES ==> ESCAPES[b] != 0
  {
  }

  lemma HexStep(doc: Text, p: nat, count: nat, unicode: nat, h: Byte)
    requires 0 < count && p + count <= |doc| && doc[p] == h
    ensures if IsHex(h) then HexDigits(doc, p, count, unicode)
                             == HexDigits(doc, p + 1, count - 1, unicode * 16 + HexDigitNumber(h))
            else HexDigits(doc, p, count, unicode).BadUnicode?
  {
    hide IsHex, HexDigitNumber, HexValue;
    DigitsAgree(h);
  }

  /** Neither the quote nor the backslash is a digit. */
  lemma DigitsAreRaw(b: Byte)
    ensures IsHex(b) ==> b != QUOTE && b != BACKSLASH
  {
  }

  lemma HexRead(doc: Text, p: nat, h: Text)
    requires Hex(h) && At(doc, p, h)
    ensures HexDigits(doc, p, 4, 0) == Unicode(HexNumber(h), p + 4)
    ensures StringEnd(doc, p) == StringEnd(doc, p + 4)
  {
    hide IsHex, HexDigitNumber, HexValue;
    AtIndex(doc, p, h, 0);
    AtIndex(doc, p, h, 1);
    AtIndex(doc, p, h, 2);
    AtIndex(doc, p, h, 3);
    var a, b, c := HexDigitNumber(h[0]), HexDigitNumber(h[1]), HexDigitNumber(h[2]);
    HexStep(doc, p, 4, 0, h[0]);
    HexStep(doc, p + 1, 3, a, h[1]);
    HexStep(doc, p + 2, 2, a * 16 + b, h[2]);
    HexStep(doc, p + 3, 1, (a * 16 + b) * 16 + c, h[3]);
    DigitsAreRaw(h[0]);
    DigitsAreRaw(h[1]);
    DigitsAreRaw(h[2]);
    DigitsAreRaw(h[3]);
    assert StringEnd(doc, p) == StringEnd(doc, p + 1) == StringEnd(doc, p + 2) == StringEnd(doc, p + 3);
  }

  /** An escape of the text is one escape sequence to the reader. */
  lemma EscapeRead(doc: Text, p: nat, h: Text, end: nat)
    requires Hex(h) && At(doc, p, EscapeText(h)) && p + 6 <= end <= |doc|
    ensures doc[p] == BACKSLASH && doc[p + 1] == LOWER_U
    ensures UnicodeSequence(doc, p + 2, end) == Unicode(HexNumber(h), p + 6)
    ensures StringEnd(doc, p) == StringEnd(doc, p + 6)
  {
    AtIndex(doc, p, EscapeText(h), 0);
    AtIndex(doc, p, EscapeText(h), 1);
    AtSplit(doc, p, [BACKSLASH, LOWER_U], h);
    HexRead(doc, p + 2, h);
    assert StringEnd(doc, p) == StringEnd(doc, p + 2);
  }

  /** Two escapes, the first a high surrogate, are one code point to the reader. */
  lemma PairRead(doc: Text, p: nat, high: Text, low: Text, end: nat)
    requires PieceWf(Pair(high, low)) && At(doc, p, PieceText(Pair(high, low))) && p + 12 <= end <= |doc|
    ensures doc[p] == BACKSLASH && doc[p + 1] == LOWER_U
    ensures UnicodePoint(doc, p + 2, end) == Unicode(PairNumber(HexNumber(high), HexNumber(low)), p + 12)
    ensures StringEnd(doc, p) == StringEnd(doc, p + 12)
  {
    hide UnicodeSequence, At, StringEnd, IsHex, HexNumber;
    AtSplit(doc, p, EscapeText(high), EscapeText(low));
    EscapeRead(doc, p, high, end);
    EscapeRead(doc, p + 6, low, end);
  }

  lemma ShortRead(doc: Text, p: nat, letter: Byte, end: nat)
    requires letter in ESCAPES && At(doc, p, [BACKSLASH, letter]) && p + 2 <= end <= |doc|
    ensures DecodeBody(doc, p, end) == DecodeBody(doc, p + 2, end).Prepend([ESCAPES[letter]])
    ensures StringEnd(doc, p) == StringEnd(doc, p + 2)
  {
    hide UnicodePoint, ShortUnescape;
    EscapesAgree(letter);
    UnicodeIsNotShort();
    AtIndex(doc, p, [BACKSLASH, letter], 0);
    AtIndex(doc, p, [BACKSLASH, letter], 1);
  }

  lemma UnicodeIsNotShort()
    ensures LOWER_U !in ESCAPES
  {
  }

  /** A piece of the text is read as its meaning, and `readString` does not stop in it. */
  lemma PieceRead(doc: Text, p: nat, x: Piece, end: nat)
    requires PieceWf(x) && At(doc, p, PieceText(x)) && p + |PieceText(x)| <= end <= |doc|
    ensures DecodeBody(doc, p, end) == DecodeBody(doc, p + |PieceText(x)|, end).Prepend(PieceMeaning(x))
    ensures StringEnd(doc, p) == StringEnd(doc, p + |PieceText(x)|)
  {
    hide UnicodeSequence, CodePointToUtf8, ShortUnescape, HexNumber, IsHex;
    match x {
      case Raw(b) => AtIndex(doc, p, [b], 0);
      case Short(letter) => ShortRead(doc, p, letter, end);
      case Escape(hex) => EscapeRead(doc, p, hex, end);
      case Pair(high, low) => PairRead(doc, p, high, low, end);
    }
  }

  // ---------- whole strings ----------

  lemma ClosingQuote(doc: Text, p: nat)
    requires At(doc, p, [QUOTE])
    ensures StringEnd(doc, p) == (p + 1, true) && DecodeBody(doc, p, p) == Decoded([])
  {
    AtIndex(doc, p, [QUOTE], 0);
  }

  /** `readString` stops exactly at the closing quote, and `decodeString` returns the meaning of the pieces. */
  lemma {:induction false} PiecesRead(doc: Text, p: nat, xs: seq<Piece>)
    requires PiecesWf(xs) && At(doc, p, PiecesText(xs) + [QUOTE])
    ensures StringEnd(doc, p) == (p + |PiecesText(xs)| + 1, true)
    ensures DecodeBody(doc, p, p + |PiecesText(xs)|) == Decoded(PiecesMeaning(xs))
    decreases |xs|
  {
    hide PieceText, PieceMeaning, PieceWf, StringEnd, DecodeBody;
    var end := p + |PiecesText(xs)|;
    AtSplit(doc, p, PiecesText(xs), [QUOTE]);
    ClosingQuote(doc, end);
    if xs != [] {
      var t := PieceText(xs[0]);
      AtSplit(doc, p, t, PiecesText(xs[1..]));
      AtSplit(doc, p + |t|, PiecesText(xs[1..]), [QUOTE]);
      PieceRead(doc, p, xs[0], end);
      PiecesRead(doc, p + |t|, xs[1..]);
    }
  }

  /** What the reader decodes as an escape sequence is four hexadecimal digits. */
  lemma HexFound(doc: Text, p: nat, end: nat) returns (h: Text)
    requires p <= end <= |doc| && UnicodeSequence(doc, p, end).Unicode?
    ensures Hex(h) && At(doc, p, h) && p + 4 <= end
    ensures UnicodeSequence(doc, p, end) == Unicode(HexNumber(h), p + 4)
    ensures StringEnd(doc, p) == StringEnd(doc, p + 4)
  {
    h := doc[p..p + 4];
    assert h[0] == doc[p] && h[1] == doc[p + 1] && h[2] == doc[p + 2] && h[3] == doc[p + 3];
    assert HexDigits(doc, p, 4, 0).Unicode?;
    HexStep(doc, p, 4, 0, h[0]);
    HexStep(doc, p + 1, 3, HexDigitNumber(h[0]), h[1]);
    HexStep(doc, p + 2, 2, HexDigitNumber(h[0]) * 16 + HexDigitNumber(h[1]), h[2]);
    var three := (HexDigitNumber(h[0]) * 16 + HexDigitNumber(h[1])) * 16 + HexDigitNumber(h[2]);
    HexStep(doc, p + 3, 1, three, h[3]);
    HexRead(doc, p, h);
  }

  lemma EscapeAt(doc: Text, p: nat, h: Text)
    requires At(doc, p + 2, h) && doc[p] == BACKSLASH && doc[p + 1] == LOWER_U
    ensures At(doc, p, EscapeText(h))
  {
    assert doc[p..p + 2] == [BACKSLASH, LOWER_U];
    AtSplit(doc, p, [BACKSLASH, LOWER_U], h);
  }

  /** The reader decodes one escape sequence, and behind a high surrogate a second one. */
  lemma EscapesDecoded(doc: Text, p: nat, end: nat)
    requires p + 2 <= end <= |doc| && UnicodePoint(doc, p + 2, end).Unicode?
    ensures var high := UnicodeSequence(doc, p + 2, end);
            && high.Unicode?
            && (high.current == p + 6 && HighSurrogate(high.cp) ==>
                  && p + 12 <= end && doc[p + 6] == BACKSLASH && doc[p + 7] == LOWER_U
                  && UnicodeSequence(doc, p + 8, end).Unicode?)
  {
    hide UnicodeSequence;
  }

  /** What the reader decodes behind `\u` is an escape or a pair. */
  lemma PointFound(doc: Text, p: nat, end: nat) returns (x: Piece)
    requires p + 2 <= end <= |doc| && doc[p] == BACKSLASH && doc[p + 1] == LOWER_U
    requires UnicodePoint(doc, p + 2, end).Unicode?
    ensures PieceWf(x) && At(doc, p, PieceText(x)) && |PieceText(x)| > 0 && p + |PieceText(x)| <= end
  {
    hide UnicodeSequence, UnicodePoint, StringEnd, At, Hex, HexNumber;
    EscapesDecoded(doc, p, end);
    var high := HexFound(doc, p + 2, end);
    EscapeAt(doc, p, high);
    x := Escape(high);
    if HighSurrogate(HexNumber(high)) {
      var low := HexFound(doc, p + 8, end);
      EscapeAt(doc, p + 6, low);
      AtSplit(doc, p, EscapeText(high), EscapeText(low));
      x := Pair(high, low);
    }
  }

  /** The piece the reader decodes first. */
  lemma PieceFound(doc: Text, p: nat, end: nat) returns (x: Piece)
    requires p < end <= |doc| && doc[p] != QUOTE && Broken(doc, p, end).None?
    ensures PieceWf(x) && At(doc, p, PieceText(x)) && PieceText(x) != [] && p + |PieceText(x)| <= end
  {
    BrokenRead(doc, p, end);
    hide UnicodePoint, CodePointToUtf8;
    if doc[p] != BACKSLASH {
      x := Raw(doc[p]);
      assert doc[p..p + 1] == [doc[p]];
    } else if doc[p + 1] == LOWER_U {
      x := PointFound(doc, p, end);
    } else {
      x := Short(doc[p + 1]);
      assert doc[p..p + 2] == [BACKSLASH, doc[p + 1]];
    }
  }

  /** Every string the reader accepts is made of pieces, and decoded to their meaning. */
  lemma {:induction false} PiecesFound(doc: Text, p: nat, e: nat) returns (xs: seq<Piece>)
    requires p < e <= |doc| && StringEnd(doc, p) == (e, true) && DecodeBody(doc, p, e - 1).Decoded?
    ensures PiecesWf(xs) && At(doc, p, PiecesText(xs)) && p + |PiecesText(xs)| + 1 == e
    ensures DecodeBody(doc, p, e - 1) == Decoded(PiecesMeaning(xs))
    decreases e - p
  {
    hide PieceText, PieceMeaning, PieceWf, UnicodePoint, CodePointToUtf8, Broken;
    if doc[p] == QUOTE {
      xs := [];
    } else {
      NotYet(doc, p, e);
      BrokenRead(doc, p, e - 1);
      var x := PieceFound(doc, p, e - 1);
      PieceRead(doc, p, x, e - 1);
      var rest := PiecesFound(doc, p + |PieceText(x)|, e);
      xs := [x] + rest;
      assert xs[1..] == rest;
      AtSplit(doc, p, PieceText(x), PiecesText(rest));
    }
  }

  lemma NotYet(doc: Text, p: nat, e: nat)
    requires p < e <= |doc| && doc[p] != QUOTE && StringEnd(doc, p) == (e, true)
    ensures p < e - 1
  {
  }

  /** The strings accepted behind an opening quote are exactly the sequences of pieces before a closing quote. */
  lemma StringsAccepted(doc: Text, p: nat, e: nat, t: Text)
    requires p < e <= |doc|
    ensures (StringEnd(doc, p) == (e, true) && DecodeBody(doc, p, e - 1) == Decoded(t))
       <==> exists xs ::
              && PiecesWf(xs)
              && At(doc, p, PiecesText(xs) + [QUOTE])
              && e == p + |PiecesText(xs)| + 1
              && t == PiecesMeaning(xs)
  {
    hide StringEnd, DecodeBody, PiecesText, PiecesMeaning, PiecesWf;
    if StringEnd(doc, p) == (e, true) && DecodeBody(doc, p, e - 1) == Decoded(t) {
      var xs := PiecesFound(doc, p, e);
      assert doc[e - 1..e] == [QUOTE];
      AtSplit(doc, p, PiecesText(xs), [QUOTE]);
    }
    if xs :|
         && PiecesWf(xs)
         && At(doc, p, PiecesText(xs) + [QUOTE])
         && e == p + |PiecesText(xs)| + 1
         && t == PiecesMeaning(xs) {
      PiecesRead(doc, p, xs);
    }
  }

  // ---------- strings that are refused ----------

  /** How many of the n bytes at p are hexadecimal digits before the first that is none. */
  function Hexes(doc: Text, p: nat, n: nat): (k: nat)
    requires p + n <= |doc|
    ensures k <= n
    decreases n
  {
    if n == 0 || !IsHex(doc[p]) then 0 else 1 + Hexes(doc, p + 1, n - 1)
  }

  /** What is wrong with the escape at p, if one stands there, and where the reader says so. */
  function Broken(doc: Text, p: nat, end: nat): Option<(StringError, nat)>
    requires p < end <= |doc|
  {
    if doc[p] != 0x5C then None
    else if p + 1 == end then Some((EmptyEscape, p + 1))
    else if doc[p + 1] != 0x75 then if doc[p + 1] in ESCAPES then None else Some((BadEscape, p + 2))
    else if p + 6 > end then Some((FourDigitsExpected, p + 2))
    else if !Hex(doc[p + 2..p + 6]) then Some((HexDigitExpected, p + 3 + Hexes(doc, p + 2, 4)))
    else if !HighSurrogate(HexNumber(doc[p + 2..p + 6])) then None
    else if p + 12 > end then Some((SixCharactersExpected, p + 6))
    else if doc[p + 6] != 0x5C then Some((SecondEscapeExpected, p + 7))
    else if doc[p + 7] != 0x75 then Some((SecondEscapeExpected, p + 8))
    else if !Hex(doc[p + 8..p + 12]) then Some((HexDigitExpected, p + 9 + Hexes(doc, p + 8, 4)))
    else None
  }

  lemma {:induction false} HexesRead(doc: Text, p: nat, n: nat, unicode: nat)
    requires p + n <= |doc| && Hexes(doc, p, n) < n
    ensures HexDigits(doc, p, n, unicode) == BadUnicode(HexDigitExpected, p + Hexes(doc, p, n) + 1)
    decreases n
  {
    hide IsHex, HexDigitNumber, HexValue;
    DigitsAgree(doc[p]);
    if IsHex(doc[p]) {
      HexesRead(doc, p + 1, n - 1, unicode * 16 + HexDigitNumber(doc[p]));
    }
  }

  lemma FourHexes(doc: Text, p: nat)
    requires p + 4 <= |doc|
    ensures Hexes(doc, p, 4) == 4 <==> Hex(doc[p..p + 4])
  {
    hide IsHex;
    var h := doc[p..p + 4];
    assert h[0] == doc[p] && h[1] == doc[p + 1] && h[2] == doc[p + 2] && h[3] == doc[p + 3];
    assert Hexes(doc, p, 4) == 4 <==> IsHex(doc[p]) && Hexes(doc, p + 1, 3) == 3;
    assert Hexes(doc, p + 1, 3) == 3 <==> IsHex(doc[p + 1]) && Hexes(doc, p + 2, 2) == 2;
    assert Hexes(doc, p + 2, 2) == 2 <==> IsHex(doc[p + 2]) && Hexes(doc, p + 3, 1) == 1;
    assert Hexes(doc, p + 3, 1) == 1 <==> IsHex(doc[p + 3]);
  }

  /** What the reader makes of four digits due at p. */
  lemma SequenceRead(doc: Text, p: nat, end: nat)
    requires p <= end <= |doc|
    ensures UnicodeSequence(doc, p, end)
         == if p + 4 > end then BadUnicode(FourDigitsExpected, p)
            else if Hex(doc[p..p + 4]) then Unicode(HexNumber(doc[p..p + 4]), p + 4)
            else BadUnicode(HexDigitExpected, p + 1 + Hexes(doc, p, 4))
  {
    hide IsHex, HexNumber, HexDigits;
    if p + 4 <= end {
      FourHexes(doc, p);
      if Hex(doc[p..p + 4]) {
        HexRead(doc, p, doc[p..p + 4]);
      } else {
        HexesRead(doc, p, 4, 0);
      }
    }
  }

  /** A broken escape is refused with its error at its place; what is not broken is one escape. */
  lemma BrokenRead(doc: Text, p: nat, end: nat)
    requires p < end <= |doc| && doc[p] != QUOTE
    ensures Broken(doc, p, end).Some?
        ==> DecodeBody(doc, p, end) == Undecodable(Broken(doc, p, end).value.0, Broken(doc, p, end).value.1)
    ensures Broken(doc, p, end).None? && doc[p] == BACKSLASH && doc[p + 1] == LOWER_U
        ==> UnicodePoint(doc, p + 2, end).Unicode?
    ensures Broken(doc, p, end).None? && doc[p] == BACKSLASH ==> p + 2 <= end
  {
    hide UnicodeSequence, Hex, HexNumber, Hexes, CodePointToUtf8, ShortUnescape;
    if doc[p] == BACKSLASH && p + 1 < end {
      EscapesAgree(doc[p + 1]);
      if doc[p + 1] == LOWER_U {
        SequenceRead(doc, p + 2, end);
        if p + 8 <= end {
          SequenceRead(doc, p + 8, end);
        }
      }
    }
  }

  /** Whatever is refused is made of pieces up to a broken escape. */
  lemma {:induction false} BrokenFound(doc: Text, p: nat, end: nat) returns (xs: seq<Piece>)
    requires p <= end <= |doc| && DecodeBody(doc, p, end).Undecodable?
    ensures PiecesWf(xs) && At(doc, p, PiecesText(xs)) && p + |PiecesText(xs)| < end
    ensures var r := DecodeBody(doc, p, end); Broken(doc, p + |PiecesText(xs)|, end) == Some((r.kind, r.at))
    decreases end - p
  {
    hide PieceText, PieceMeaning, PieceWf, UnicodePoint, CodePointToUtf8, Broken;
    BrokenRead(doc, p, end);
    if Broken(doc, p, end).Some? {
      xs := [];
    } else {
      var x := PieceFound(doc, p, end);
      PieceRead(doc, p, x, end);
      var rest := BrokenFound(doc, p + |PieceText(x)|, end);
      xs := [x] + rest;
      assert xs[1..] == rest;
      AtSplit(doc, p, PieceText(x), PiecesText(rest));
    }
  }

  /** Pieces are passed one by one. */
  lemma {:induction false} PiecesPassed(doc: Text, p: nat, xs: seq<Piece>, end: nat)
    requires PiecesWf(xs) && At(doc, p, PiecesText(xs)) && p + |PiecesText(xs)| <= end <= |doc|
    ensures DecodeBody(doc, p, end)
         == DecodeBody(doc, p + |PiecesText(xs)|, end).Prepend(PiecesMeaning(xs))
    decreases |xs|
  {
    hide PieceText, PieceMeaning, PieceWf, DecodeBody;
    if xs == [] {
      NothingPrepended(DecodeBody(doc, p, end));
    } else {
      var t := PieceText(xs[0]);
      AtSplit(doc, p, t, PiecesText(xs[1..]));
      PieceRead(doc, p, xs[0], end);
      PiecesPassed(doc, p + |t|, xs[1..], end);
      PrependTwice(DecodeBody(doc, p + |PiecesText(xs)|, end), PieceMeaning(xs[0]), PiecesMeaning(xs[1..]));
    }
  }

  lemma NothingPrepended(r: StringResult)
    ensures r.Prepend([]) == r
  {
  }

  /** The strings refused, and why and where, are exactly those with a broken escape behind pieces of the grammar. */
  lemma StringsRefused(doc: Text, p: nat, end: nat, kind: StringError, at: nat)
    requires p <= end <= |doc|
    ensures DecodeBody(doc, p, end) == Undecodable(kind, at)
       <==> exists xs ::
              && PiecesWf(xs)
              && At(doc, p, PiecesText(xs))
              && p + |PiecesText(xs)| < end
              && Broken(doc, p + |PiecesText(xs)|, end) == Some((kind, at))
  {
    hide DecodeBody, PiecesText, PiecesMeaning, PiecesWf, Broken;
    if DecodeBody(doc, p, end) == Undecodable(kind, at) {
      var xs := BrokenFound(doc, p, end);
    }
    if xs :|
         && PiecesWf(xs)
         && At(doc, p, PiecesText(xs))
         && p + |PiecesText(xs)| < end
         && Broken(doc, p + |PiecesText(xs)|, end) == Some((kind, at)) {
      PiecesPassed(doc, p, xs, end);
      BrokenIsNoQuote(doc, p + |PiecesText(xs)|, end);
      BrokenRead(doc, p + |PiecesText(xs)|, end);
    }
  }

  lemma BrokenIsNoQuote(doc: Text, p: nat, end: nat)
    requires p < end <= |doc| && Broken(doc, p, end).Some?
    ensures doc[p] != QUOTE
  {
  }

  // ---------- what the writer writes ----------

  /** What a code point of the writer's loop becomes once it has been read back. */
  function ReadBack(cp: nat): Text
  {
    if cp <= 0x10FFFF then CodePointToUtf8(cp)
    else CodePointToUtf8((cp - 0x10000) / 0x400 + 0xD800) + CodePointToUtf8((cp - 0x10000) % 0x400 + 0xDC00)
  }

  function ReadBackAll(cps: seq<nat>): Text
  {
    if cps == [] then [] else ReadBack(cps[0]) + ReadBackAll(cps[1..])
  }

  /** The pieces of `EscapedCodePoint`. */
  function EscapedPieces(cp: nat): seq<Piece>
  {
    if 0x20 <= cp < 0x80 then [Raw(cp)]
    else if cp < 0x10000 then [Escape(ToHex16Bit(cp))]
    else
      var high := ToHex16Bit((cp - 0x10000) / 0x400 + 0xD800);
      var low := ToHex16Bit((cp - 0x10000) % 0x400 + 0xDC00);
      if cp <= 0x10FFFF then [Pair(high, low)] else [Escape(high), Escape(low)]
  }

  function UnitPieces(s: Text): seq<Piece>
    requires s != []
  {
    if ShortEscape(s[0]) != 0 then [Short(ShortEscape(s[0]))] else EscapedPieces(Scan(s).0)
  }

  /** The pieces of `QuoteBody`. */
  function WrittenPieces(s: Text): seq<Piece>
    decreases |s|
  {
    if s == [] then [] else UnitPieces(s) + WrittenPieces(s[Unit(s).1..])
  }

  lemma HexOfNumber(x: nat)
    requires x < 0x10000
    ensures Hex(ToHex16Bit(x)) && HexNumber(ToHex16Bit(x)) == x
  {
    var hi: nat, lo: nat := x / 0x100, x % 0x100;
    assert hi % 0x100 == hi && x == ((hi / 16 * 16 + hi % 16) * 16 + lo / 16) * 16 + lo % 16;
    HexOfDigit(hi / 16);
    HexOfDigit(hi % 16);
    HexOfDigit(lo / 16);
    HexOfDigit(lo % 16);
  }

  lemma HexOfDigit(n: nat)
    requires n < 16
    ensures IsHex(HexDigit(n)) && HexDigitNumber(HexDigit(n)) == n
  {
  }

  /** The surrogate split of the writer is undone by the pair. */
  lemma SplitIsPair(cp: nat)
    requires 0x10000 <= cp <= 0x10FFFF
    ensures var high, low := (cp - 0x10000) / 0x400 + 0xD800, (cp - 0x10000) % 0x400 + 0xDC00;
            HighSurrogate(high) && low < 0x10000 && PairNumber(high, low) == cp
  {
    var a, b := (cp - 0x10000) / 0x400, (cp - 0x10000) % 0x400;
    assert a < 0x400 && (0xD800 + a) % 0x400 == a && (0xDC00 + b) % 0x400 == b;
  }

  predicate Spells(xs: seq<Piece>, t: Text, meaning: Text)
  {
    PiecesWf(xs) && PiecesText(xs) == t && PiecesMeaning(xs) == meaning
  }

  lemma OnePiece(x: Piece)
    requires PieceWf(x)
    ensures Spells([x], PieceText(x), PieceMeaning(x))
  {
    hide PieceWf, PieceText, PieceMeaning;
    assert [x][1..] == [] && PiecesText([]) == [] && PiecesMeaning([]) == [];
    assert PiecesText([x]) == PieceText(x) + [] && PiecesMeaning([x]) == PieceMeaning(x) + [];
  }

  lemma {:induction false} PiecesConcat(xs: seq<Piece>, ys: seq<Piece>)
    requires PiecesWf(xs) && PiecesWf(ys)
    ensures Spells(xs + ys, PiecesText(xs) + PiecesText(ys), PiecesMeaning(xs) + PiecesMeaning(ys))
    decreases |xs|
  {
    hide PieceWf, PieceText, PieceMeaning;
    if xs == [] {
      assert xs + ys == ys;
    } else {
      PiecesConcat(xs[1..], ys);
      assert (xs + ys)[1..] == xs[1..] + ys;
    }
  }

  /** What the writer appends for a code point is read back as that code point. */
  lemma EscapedIsPieces(cp: nat)
    requires cp < 0x200000 && !(0xD800 <= cp <= 0xDFFF) && cp != QUOTE && cp != BACKSLASH
    ensures Spells(EscapedPieces(cp), EscapedCodePoint(cp), ReadBack(cp))
  {
    hide Hex, HexNumber, ToHex16Bit, Spells;
    if 0x20 <= cp < 0x80 {
      OnePiece(Raw(cp));
    } else if cp < 0x10000 {
      HexOfNumber(cp);
      OnePiece(Escape(ToHex16Bit(cp)));
    } else {
      var high, low := (cp - 0x10000) / 0x400 + 0xD800, (cp - 0x10000) % 0x400 + 0xDC00;
      HexOfNumber(high);
      HexOfNumber(low);
      if cp <= 0x10FFFF {
        SplitIsPair(cp);
        OnePiece(Pair(ToHex16Bit(high), ToHex16Bit(low)));
      } else {
        TwoEscapes(ToHex16Bit(high), ToHex16Bit(low));
      }
    }
  }

  lemma TwoEscapes(high: Text, low: Text)
    requires PieceWf(Escape(high)) && PieceWf(Escape(low))
    ensures Spells([Escape(high), Escape(low)], EscapeText(high) + EscapeText(low),
                   PieceMeaning(Escape(high)) + PieceMeaning(Escape(low)))
  {
    hide PieceWf, PieceMeaning;
    OnePiece(Escape(high));
    OnePiece(Escape(low));
    PiecesConcat([Escape(high)], [Escape(low)]);
    assert [Escape(high)] + [Escape(low)] == [Escape(high), Escape(low)];
  }

  /** The two-character escapes of the writer stand for the bytes they are written for. */
  lemma ShortRoundTrip(b: Byte)
    ensures ShortEscape(b) != 0 ==> ShortEscape(b) in ESCAPES && ESCAPES[ShortEscape(b)] == b
  {
  }

  lemma UnitIsPieces(s: Text)
    requires s != []
    ensures Spells(UnitPieces(s), Unit(s).0, ReadBack(Scan(s).0)) && Unit(s).1 == Scan(s).1
  {
    hide Spells, EscapedPieces, EscapedCodePoint;
    if ShortEscape(s[0]) != 0 {
      ShortRoundTrip(s[0]);
      OnePiece(Short(ShortEscape(s[0])));
    } else {
      EscapedIsPieces(Scan(s).0);
    }
  }

  /** The writer's output is made of pieces that mean the code points its loop meets. */
  lemma {:induction false} WrittenIsPieces(s: Text)
    ensures Spells(WrittenPieces(s), QuoteBody(s), ReadBackAll(CodePoints(s)))
    decreases |s|
  {
    hide Unit, UnitPieces, Scan, ReadBack, PiecesText, PiecesMeaning;
    if s == [] {
      NoPieces();
    } else {
      var rest := s[Unit(s).1..];
      UnitIsPieces(s);
      WrittenIsPieces(rest);
      PiecesConcat(UnitPieces(s), WrittenPieces(rest));
      assert CodePoints(s)[1..] == CodePoints(rest);
    }
  }

  predicate LowerCase(h: Text) { forall b | b in h :: !(0x41 <= b <= 0x46) }

  /**
   * The piece the writer chooses among those of one meaning: a byte as it stands if it is printable
   * or DEL, a two-character escape but for the solidus, or else lower-case `\u` escapes.
   */
  predicate Chosen(x: Piece)
  {
    match x
    case Raw(b) => 0x20 <= b <= 0x7F && b != 0x22 && b != 0x5C
    case Short(letter) => letter in {0x22, 0x5C, 0x62, 0x66, 0x6E, 0x72, 0x74}
    case Escape(hex) =>
      && Hex(hex) && LowerCase(hex)
      && var cp := HexNumber(hex); cp >= 0x80 || (cp < 0x20 && cp !in {0x08, 0x09, 0x0A, 0x0C, 0x0D})
    case Pair(high, low) => LowerCase(high) && LowerCase(low) && Hex(low) && 0xDC00 <= HexNumber(low) <= 0xDFFF
  }

  lemma HexIsLowerCase(x: nat)
    ensures LowerCase(ToHex16Bit(x))
  {
  }

  /** A code point below 0x80 is scanned from the byte of that value. */
  lemma SevenBits(s: Text)
    requires s != [] && Scan(s).0 < 0x80
    ensures s[0] == Scan(s).0
  {
  }

  lemma CodePointIsChosen(cp: nat)
    requires cp < 0x200000 && cp !in {0x08, 0x09, 0x0A, 0x0C, 0x0D, 0x22, 0x5C}
    ensures forall x | x in EscapedPieces(cp) :: Chosen(x)
  {
    hide Hex, HexNumber, ToHex16Bit, LowerCase;
    if 0x20 <= cp < 0x80 {
    } else if cp < 0x10000 {
      HexOfNumber(cp);
      HexIsLowerCase(cp);
    } else {
      var high, low := (cp - 0x10000) / 0x400 + 0xD800, (cp - 0x10000) % 0x400 + 0xDC00;
      HexOfNumber(high);
      HexOfNumber(low);
      HexIsLowerCase(high);
      HexIsLowerCase(low);
    }
  }

  lemma UnitIsChosen(s: Text)
    requires s != []
    ensures forall x | x in UnitPieces(s) :: Chosen(x)
  {
    if ShortEscape(s[0]) == 0 {
      if Scan(s).0 < 0x80 {
        SevenBits(s);
      }
      hide Chosen, EscapedPieces, Scan;
      CodePointIsChosen(Scan(s).0);
    }
  }

  /** The writer writes nothing but the pieces it is to choose. */
  lemma {:induction false} WrittenIsChosen(s: Text)
    ensures forall x | x in WrittenPieces(s) :: Chosen(x)
    decreases |s|
  {
    hide Chosen, UnitPieces, Unit;
    if s != [] {
      UnitIsChosen(s);
      WrittenIsChosen(s[Unit(s).1..]);
    }
  }

  /** How many bytes the writer's scan needs behind a first byte. */
  function Needed(b: Byte): nat
  {
    if b < 0x80 then 1 else if b < 0xE0 then 2 else if b < 0xF0 then 3 else 4
  }

  /** A character cut off at the end of the text, or a byte that begins none, is written as U+FFFD. */
  lemma CutOff(s: Text)
    requires s != [] && (|s| < Needed(s[0]) || s[0] >= 0xF8)
    ensures Unit(s) == ([0x5C, 0x75, 0x66, 0x66, 0x66, 0x64], 1)
  {
    assert ToHex16Bit(0xFFFD) == [0x66, 0x66, 0x66, 0x64];
    assert [BACKSLASH, LOWER_U] + [0x66, 0x66, 0x66, 0x64] == [0x5C, 0x75, 0x66, 0x66, 0x66, 0x64];
    assert Scan(s) == (0xFFFD, 1) && ShortEscape(s[0]) == 0;
  }

  lemma NoPieces()
    ensures Spells([], [], [])
  {
  }

  /**
   * For arbitrary bytes: inside a document, `readString` stops exactly at the writer's closing
   * quote and `decodeString` accepts what lies between.
   */
  lemma BodyRoundTrip(doc: Text, p: nat, s: Text)
    requires At(doc, p, QuoteBody(s) + [QUOTE])
    ensures StringEnd(doc, p) == (p + |QuoteBody(s)| + 1, true)
    ensures DecodeBody(doc, p, p + |QuoteBody(s)|) == Decoded(ReadBackAll(CodePoints(s)))
  {
    hide QuoteBody, WrittenPieces, PiecesText, PiecesMeaning, PiecesWf, ReadBackAll, CodePoints, StringEnd, DecodeBody;
    WrittenIsPieces(s);
    PiecesRead(doc, p, WrittenPieces(s));
  }

  lemma {:induction false} ReadBackScalars(cps: seq<nat>)
    requires Scalars(cps)
    ensures ReadBackAll(cps) == Encode(cps)
  {
    if cps != [] {
      assert Scalar(cps[0]);
      ReadBackScalars(cps[1..]);
    }
  }

  /** Above U+10FFFF the bytes change: a sequence of four is read back as two surrogates of three. */
  lemma AboveUnicode(s: Text)
    requires s != [] && Scan(s).0 > 0x10FFFF
    ensures ReadBack(Scan(s).0) != [] && ReadBack(Scan(s).0)[0] != s[0]
  {
    var high := (Scan(s).0 - 0x10000) / 0x400 + 0xD800;
    assert 0xDC00 <= high <= 0xDFFF && high / 0x1000 == 0xD;
  }

  /** Exactly the well-formed strings are read back unchanged. */
  lemma {:induction false} ReadBackIffWellFormed(s: Text)
    ensures ReadBackAll(CodePoints(s)) == s <==> WellFormed(s)
    decreases |s|
  {
    hide CodePointToUtf8, CharLength, Scan;
    if WellFormed(s) {
      WellFormedDecodes(s);
      ReadBackScalars(CodePoints(s));
    } else if ReadBackAll(CodePoints(s)) == s {
      var (cp, n) := Scan(s);
      var e, rest := ReadBack(cp), ReadBackAll(CodePoints(s[n..]));
      assert CodePoints(s)[1..] == CodePoints(s[n..]) && e + rest == s;
      if cp > 0x10FFFF {
        AboveUnicode(s);
      } else {
        ScannedIsScalar(s);
        ScanOfEncoded(cp, rest);
        ReadBackIffWellFormed(s[n..]);
      }
    }
  }

  lemma ScannedIsScalar(s: Text)
    requires s != [] && Scan(s).0 <= 0x10FFFF
    ensures Scalar(Scan(s).0)
  {
  }

  lemma SurrogateScans(x: nat, rest: Text)
    requires 0xD800 <= x <= 0xDFFF
    ensures |CodePointToUtf8(x)| == 3 && Scan(CodePointToUtf8(x) + rest) == (REPLACEMENT_CHARACTER, 3)
  {
    var z: nat, y: nat, w: nat := x / 0x1000, x / 0x40 % 0x40, x % 0x40;
    assert z == 0xD && x == z * 0x1000 + y * 0x40 + w;
    assert (0xE0 + z) % 0x10 == z && (0x80 + y) % 0x40 == y && (0x80 + w) % 0x40 == w;
  }

  lemma FrontScanned(e: Text, rest: Text)
    requires e != [] && Scan(e + rest).1 == |e|
    ensures CodePoints(e + rest) == [Scan(e + rest).0] + CodePoints(rest)
  {
    hide Scan;
    assert (e + rest)[|e|..] == rest;
  }

  /** The code points the writer's loop meets: scalar values, and what four bytes can hold above them. */
  predicate Met(cp: nat) { Scalar(cp) || 0x10FFFF < cp < 0x200000 }

  lemma {:induction false} AllMet(s: Text)
    ensures forall cp | cp in CodePoints(s) :: Met(cp)
    decreases |s|
  {
    if s != [] {
      AllMet(s[Scan(s).1..]);
    }
  }

  lemma {:induction false} ReadBackIsScalar(cps: seq<nat>)
    requires forall cp | cp in cps :: Met(cp)
    ensures Scalars(CodePoints(ReadBackAll(cps)))
    decreases |cps|
  {
    hide Scan, CodePointToUtf8;
    if cps != [] {
      var cp, rest := cps[0], ReadBackAll(cps[1..]);
      ReadBackIsScalar(cps[1..]);
      assert Met(cp);
      if cp <= 0x10FFFF {
        ScanOfEncoded(cp, rest);
        FrontScanned(CodePointToUtf8(cp), rest);
      } else {
        var high, low := CodePointToUtf8((cp - 0x10000) / 0x400 + 0xD800),
            CodePointToUtf8((cp - 0x10000) % 0x400 + 0xDC00);
        SurrogateScans((cp - 0x10000) / 0x400 + 0xD800, low + rest);
        SurrogateScans((cp - 0x10000) % 0x400 + 0xDC00, rest);
        FrontScanned(low, rest);
        FrontScanned(high, low + rest);
        assert high + (low + rest) == high + low + rest;
      }
    }
  }

  /** Whatever has been written and read back twice is well-formed. */
  lemma TwiceIsWellFormed(s: Text)
    ensures WellFormed(ReadBackAll(CodePoints(ReadBackAll(CodePoints(s)))))
  {
    var cps := CodePoints(ReadBackAll(CodePoints(s)));
    AllMet(s);
    ReadBackIsScalar(CodePoints(s));
    ReadBackScalars(cps);
    EncodedIsWellFormed(cps);
  }

  lemma BetweenQuotes(doc: Text, p: nat, body: Text)
    requires At(doc, p, [QUOTE] + (body + [QUOTE]))
    ensures doc[p] == QUOTE && At(doc, p + 1, body + [QUOTE])
  {
    AtSplit(doc, p, [QUOTE], body + [QUOTE]);
    AtIndex(doc, p, [QUOTE], 0);
  }

  /**
   * Inside a document, `readString` stops exactly at the closing quote of a quoted string, and
   * unquoting is the inverse of quoting for exactly the well-formed strings.
   */
  lemma QuotedRoundTrip(doc: Text, p: nat, s: Text)
    requires At(doc, p, Quoted(s))
    ensures doc[p] == QUOTE && StringEnd(doc, p + 1) == (p + |Quoted(s)|, true)
    ensures DecodeBody(doc, p + 1, p + |Quoted(s)| - 1) == Decoded(s) <==> WellFormed(s)
  {
    hide QuoteBody, WellFormed, DecodeBody, StringEnd, CodePoints, ReadBackAll, At;
    BetweenQuotes(doc, p, QuoteBody(s));
    BodyRoundTrip(doc, p + 1, s);
    ReadBackIffWellFormed(s);
  }
}
