/** The token readers against the gaps, numbers and constants of the grammar, in both directions. */
module Lexing {
  import opened Bytes
  import Decimal
  import opened JsonValue
  import opened Options
  import opened Quote
  import opened ReaderSpec
  import opened Syntax

  // ---------- gaps are skipped ----------

  lemma {:induction false} BlockEnds(doc: Text, q: nat, body: Text)
    requires At(doc, q, body + [STAR, SLASH]) && BlankWf(Block(body))
    ensures CStyleEnd(doc, q) == (q + |body| + 2, true)
    decreases |body|
  {
    var t := body + [STAR, SLASH];
    AtIndex(doc, q, t, 0);
    AtIndex(doc, q, t, 1);
    if body != [] {
      AtSplit(doc, q, t[..1], t[1..]);
      assert t == t[..1] + t[1..] && t[1..] == body[1..] + [STAR, SLASH];
      BlockEnds(doc, q + 1, body[1..]);
    }
  }

  lemma {:induction false} LineEnds(doc: Text, q: nat, body: Text, eol: Byte)
    requires At(doc, q, body + [eol]) && BlankWf(Line(body, eol))
    ensures var e := q + |body| + 1;
            CppStyleEnd(doc, q) == if eol == CR && Has(doc, e, {LF}) then e + 1 else e
    decreases |body|
  {
    var t := body + [eol];
    AtIndex(doc, q, t, 0);
    if body != [] {
      assert body[0] in body;
      AtSplit(doc, q, t[..1], t[1..]);
      assert t == t[..1] + t[1..] && t[1..] == body[1..] + [eol];
      LineEnds(doc, q + 1, body[1..], eol);
    }
  }

  /** A comment that is not closed runs to the end, and passes for one if the last byte is a slash. */
  lemma {:induction false} BlockUnclosed(doc: Text, q: nat)
    requires q < |doc| && forall k | q <= k < |doc| - 1 :: !(doc[k] == STAR && doc[k + 1] == SLASH)
    ensures CStyleEnd(doc, q) == (|doc|, doc[|doc| - 1] == SLASH)
    decreases |doc| - q
  {
    if q + 1 < |doc| {
      BlockUnclosed(doc, q + 1);
    }
  }

  lemma {:induction false} LineUnclosed(doc: Text, q: nat)
    requires q <= |doc| && forall k | q <= k < |doc| :: doc[k] != LF && doc[k] != CR
    ensures CppStyleEnd(doc, q) == |doc|
    decreases |doc| - q
  {
    if q < |doc| {
      LineUnclosed(doc, q + 1);
    }
  }

  lemma SpaceSkipped(doc: Text, p: nat)
    requires p < |doc| && IsSpace(doc[p])
    ensures NextToken(doc, p) == NextToken(doc, p + 1) && SkipComments(doc, p) == SkipComments(doc, p + 1)
  {
  }

  /** A comment is one comment token, up to a line feed behind it. */
  lemma CommentBegins(doc: Text, p: nat)
    requires p + 2 <= |doc| && doc[p] == SLASH && doc[p + 1] in {STAR, SLASH}
    ensures var (end, ok) := if doc[p + 1] == STAR then CStyleEnd(doc, p + 2) else (CppStyleEnd(doc, p + 2), true);
            NextToken(doc, p) == Token(if ok then Comment else ErrorToken, p, end)
  {
    hide StringEnd, NumberEnd, CStyleEnd, CppStyleEnd;
  }

  lemma CommentToken(doc: Text, p: nat, x: Blank)
    requires BlankWf(x) && !x.Space? && At(doc, p, BlankText(x))
    ensures var e := p + |BlankText(x)|; var t := NextToken(doc, p);
            && t.kind == Comment && e <= |doc|
            && (t.end == e || (e < |doc| && doc[e] == LF && t.end == e + 1))
  {
    hide NextToken, CStyleEnd, CppStyleEnd;
    AtIndex(doc, p, BlankText(x), 0);
    AtIndex(doc, p, BlankText(x), 1);
    CommentBegins(doc, p);
    match x
    case Block(body) =>
      AtSplit(doc, p, [SLASH, STAR], body + [STAR, SLASH]);
      BlockEnds(doc, p + 2, body);
    case Line(body, eol) =>
      AtSplit(doc, p, [SLASH, SLASH], body + [eol]);
      LineEnds(doc, p + 2, body, eol);
  }

  lemma BlankSkipped(doc: Text, p: nat, x: Blank)
    requires BlankWf(x) && At(doc, p, BlankText(x))
    ensures SkipComments(doc, p) == SkipComments(doc, p + |BlankText(x)|)
    ensures if x.Space? then NextToken(doc, p) == NextToken(doc, p + |BlankText(x)|)
            else NextToken(doc, p).kind == Comment
  {
    hide NextToken;
    var e := p + |BlankText(x)|;
    if x.Space? {
      AtIndex(doc, p, BlankText(x), 0);
      SpaceSkipped(doc, p);
    } else {
      CommentToken(doc, p, x);
      if NextToken(doc, p).end == e + 1 {
        SpaceSkipped(doc, e);
      }
    }
  }

  /** A gap is skipped; the token behind it is the next token unless the gap holds a comment. */
  lemma {:induction false} GapSkipped(doc: Text, p: nat, g: Gap)
    requires GapWf(g) && At(doc, p, GapText(g))
    ensures SkipComments(doc, p) == SkipComments(doc, p + |GapText(g)|)
    ensures if SpacesOnly(g) then NextToken(doc, p) == NextToken(doc, p + |GapText(g)|)
            else NextToken(doc, p).kind == Comment
    decreases |g|
  {
    hide NextToken, SkipComments, BlankWf, BlankText;
    if g != [] {
      AtSplit(doc, p, BlankText(g[0]), GapText(g[1..]));
      BlankSkipped(doc, p, g[0]);
      GapSkipped(doc, p + |BlankText(g[0])|, g[1..]);
      assert g == [g[0]] + g[1..];
      assert SpacesOnly(g) <==> g[0].Space? && SpacesOnly(g[1..]);
    }
  }

  // ---------- what is skipped is a gap ----------

  lemma {:induction false} BlockFound(doc: Text, q: nat) returns (body: Text)
    requires q <= |doc| && CStyleEnd(doc, q).1 && CStyleEnd(doc, q).0 < |doc|
    ensures BlankWf(Block(body)) && At(doc, q, body + [STAR, SLASH]) && CStyleEnd(doc, q).0 == q + |body| + 2
    decreases |doc| - q
  {
    if doc[q] == STAR && doc[q + 1] == SLASH {
      body := [];
      assert doc[q..q + 2] == [] + [STAR, SLASH];
    } else {
      var rest := BlockFound(doc, q + 1);
      body := [doc[q]] + rest;
      assert doc[q..q + 1] == [doc[q]] && body + [STAR, SLASH] == [doc[q]] + (rest + [STAR, SLASH]);
      AtSplit(doc, q, [doc[q]], rest + [STAR, SLASH]);
      AtIndex(doc, q + 1, rest + [STAR, SLASH], 0);
      assert forall k | 0 < k < |body| :: body[k] == rest[k - 1];
    }
  }

  lemma {:induction false} LineFound(doc: Text, q: nat) returns (body: Text, eol: Byte)
    requires q <= |doc| && CppStyleEnd(doc, q) < |doc|
    ensures BlankWf(Line(body, eol)) && At(doc, q, body + [eol])
    ensures var e := q + |body| + 1;
            CppStyleEnd(doc, q) == if eol == CR && Has(doc, e, {LF}) then e + 1 else e
    decreases |doc| - q
  {
    if doc[q] == LF || doc[q] == CR {
      body, eol := [], doc[q];
      assert doc[q..q + 1] == [] + [eol];
    } else {
      var rest;
      rest, eol := LineFound(doc, q + 1);
      body := [doc[q]] + rest;
      assert doc[q..q + 1] == [doc[q]] && body + [eol] == [doc[q]] + (rest + [eol]);
      AtSplit(doc, q, [doc[q]], rest + [eol]);
    }
  }

  lemma {:induction false} SpacesFound(doc: Text, p: nat) returns (g: Gap)
    requires p <= |doc|
    ensures GapWf(g) && SpacesOnly(g) && At(doc, p, GapText(g)) && SkipSpaces(doc, p) == p + |GapText(g)|
    decreases |doc| - p
  {
    if p < |doc| && IsSpace(doc[p]) {
      var rest := SpacesFound(doc, p + 1);
      g := [Space(doc[p])] + rest;
      assert g[1..] == rest && doc[p..p + 1] == [doc[p]];
      AtSplit(doc, p, [doc[p]], GapText(rest));
    } else {
      g := [];
    }
  }

  /** A comment token that does not reach the end of the document, up to a line feed behind it. */
  lemma CommentFound(doc: Text, p: nat) returns (x: Blank)
    requires p < |doc| && TokenAt(doc, p).kind == Comment && TokenAt(doc, p).end < |doc|
    ensures BlankWf(x) && !x.Space? && At(doc, p, BlankText(x))
    ensures var e := p + |BlankText(x)|;
            TokenAt(doc, p).end == e || (e < |doc| && doc[e] == LF && TokenAt(doc, p).end == e + 1)
  {
    hide StringEnd, NumberEnd, CStyleEnd, CppStyleEnd;
    assert doc[p] == SLASH && p + 1 < |doc| && doc[p + 1] in {STAR, SLASH};
    assert doc[p..p + 2] == [SLASH, doc[p + 1]];
    if doc[p + 1] == STAR {
      var body := BlockFound(doc, p + 2);
      AtSplit(doc, p, [SLASH, STAR], body + [STAR, SLASH]);
      x := Block(body);
    } else {
      var body, eol := LineFound(doc, p + 2);
      AtSplit(doc, p, [SLASH, SLASH], body + [eol]);
      x := Line(body, eol);
    }
  }

  lemma {:induction false} GapsJoin(g: Gap, h: Gap)
    ensures GapText(g + h) == GapText(g) + GapText(h)
    decreases |g|
  {
    hide BlankText;
    if g == [] {
      assert g + h == h;
    } else {
      GapsJoin(g[1..], h);
      assert (g + h)[1..] == g[1..] + h;
    }
  }

  lemma GapContinues(doc: Text, p: nat, g: Gap, x: Blank, rest: Gap)
    requires GapWf(g) && BlankWf(x) && !x.Space? && GapWf(rest)
    requires At(doc, p, GapText(g)) && At(doc, p + |GapText(g)|, BlankText(x))
    requires At(doc, p + |GapText(g)| + |BlankText(x)|, GapText(rest))
    ensures var h := g + ([x] + rest);
            && GapWf(h) && !SpacesOnly(h) && At(doc, p, GapText(h))
            && |GapText(h)| == |GapText(g)| + |BlankText(x)| + |GapText(rest)|
  {
    hide At, BlankWf, BlankText;
    assert ([x] + rest)[1..] == rest;
    AtSplit(doc, p + |GapText(g)|, BlankText(x), GapText(rest));
    AtSplit(doc, p, GapText(g), GapText([x] + rest));
    GapsJoin(g, [x] + rest);
    assert x in g + ([x] + rest);
  }

  /** What the reader skips in front of a token is a gap; it holds a comment when the next token is one. */
  lemma {:induction false} GapFound(doc: Text, p: nat) returns (g: Gap)
    requires p <= |doc| && SkipComments(doc, p).start < |doc|
    ensures GapWf(g) && At(doc, p, GapText(g)) && SkipComments(doc, p).start == p + |GapText(g)|
    ensures SpacesOnly(g) <==> NextToken(doc, p).kind != Comment
    decreases |doc| - p
  {
    hide TokenAt, BlankWf, BlankText, GapText, GapWf, SpacesOnly, At, SkipSpaces;
    g := SpacesFound(doc, p);
    var t := NextToken(doc, p);
    if t.kind == Comment {
      var x := CommentFound(doc, t.start);
      var e := t.start + |BlankText(x)|;
      if t.end == e + 1 {
        SpaceSkipped(doc, e);
      }
      var rest := GapFound(doc, e);
      GapContinues(doc, p, g, x, rest);
      g := g + ([x] + rest);
    }
  }

  /** A byte that begins no token is one by itself: the end of the stream if it is NUL, and otherwise an error. */
  lemma StrayByte(doc: Text, p: nat)
    requires p < |doc| && !Decimal.IsDigit(doc[p])
    requires doc[p] !in {0x22, 0x2C, 0x2D, 0x2F, 0x3A, 0x5B, 0x5D, 0x66, 0x6E, 0x74, 0x7B, 0x7D}
    ensures TokenAt(doc, p) == Token(if doc[p] == 0 then EndOfStream else ErrorToken, p, p + 1)
  {
  }

  // ---------- recovery ----------

  /** Where the cursor stands behind k tokens. */
  function Behind(doc: Text, p: nat, k: nat): (r: nat)
    requires p <= |doc|
    ensures p <= r <= |doc|
  {
    if k == 0 then p else NextToken(doc, Behind(doc, p, k - 1)).end
  }

  lemma {:induction false} BehindOne(doc: Text, p: nat, k: nat)
    requires p <= |doc|
    ensures Behind(doc, p, k + 1) == Behind(doc, NextToken(doc, p).end, k)
    decreases k
  {
    hide NextToken;
    if k > 0 {
      BehindOne(doc, p, k - 1);
    }
  }

  /** Recovery passes tokens up to the first one wanted, or the end of the stream, and stops behind that. */
  lemma {:induction false} RecoveryFound(doc: Text, p: nat, skipUntil: TokenType) returns (k: nat)
    requires p <= |doc|
    ensures Recover(doc, p, skipUntil) == Behind(doc, p, k + 1)
    ensures NextToken(doc, Behind(doc, p, k)).kind in {skipUntil, EndOfStream}
    ensures forall j | 0 <= j < k :: NextToken(doc, Behind(doc, p, j)).kind !in {skipUntil, EndOfStream}
    decreases |doc| - p
  {
    hide NextToken;
    var t := NextToken(doc, p);
    k := 0;
    BehindOne(doc, p, 0);
    if t.kind !in {skipUntil, EndOfStream} {
      var rest := RecoveryFound(doc, t.end, skipUntil);
      k := rest + 1;
      BehindOne(doc, p, rest);
      BehindOne(doc, p, k);
      forall j | 0 <= j < k ensures NextToken(doc, Behind(doc, p, j)).kind !in {skipUntil, EndOfStream} {
        if j > 0 {
          BehindOne(doc, p, j - 1);
        }
      }
    }
  }

  // ---------- without gaps ----------

  lemma NoBlanks()
    ensures GapText([]) == [] && GapWf([]) && SpacesOnly([])
  {
  }

  /** The text of a field with no gap before it or before its colon. */
  lemma CompactField(f: Field)
    requires f.before == [] && f.spaces == []
    ensures FieldText(f) == NameText(f.name) + ([COLON] + GapText(f.between)) + TreeText(f.value) + GapText(f.after)
  {
    hide NameText, GapText, TreeText;
    NoBlanks();
    var t := TreeText(f.value) + GapText(f.after);
    assert FieldText(f) == [] + (NameText(f.name) + ([] + ([COLON] + (GapText(f.between) + t))));
  }

  // ---------- numbers ----------

  /** Without a digit behind them, digits are taken to their end. */
  lemma {:induction false} DigitsTaken(doc: Text, p: nat, t: Text)
    requires At(doc, p, t) && Decimal.AllDigits(t)
    requires p + |t| < |doc| ==> !Decimal.IsDigit(doc[p + |t|])
    ensures DigitsEnd(doc, p) == p + |t|
    decreases |t|
  {
    if t != [] {
      AtIndex(doc, p, t, 0);
      AtSplit(doc, p, t[..1], t[1..]);
      assert t == t[..1] + t[1..] && Decimal.IsDigit(t[0]);
      DigitsTaken(doc, p + 1, t[1..]);
    }
  }

  lemma {:induction false} DigitsFound(doc: Text, p: nat)
    requires p <= |doc|
    ensures Decimal.AllDigits(doc[p..DigitsEnd(doc, p)])
    ensures DigitsEnd(doc, p) < |doc| ==> !Decimal.IsDigit(doc[DigitsEnd(doc, p)])
    decreases |doc| - p
  {
    if p < |doc| && Decimal.IsDigit(doc[p]) {
      DigitsFound(doc, p + 1);
      assert doc[p..DigitsEnd(doc, p)] == [doc[p]] + doc[p + 1..DigitsEnd(doc, p)];
    }
  }

  lemma FractionTaken(doc: Text, p: nat, n: Numeral)
    requires n.Wf() && At(doc, p, n.fraction)
    requires p + |n.fraction| < |doc| ==> !Decimal.IsDigit(doc[p + |n.fraction|])
    requires n.fraction == [] && p < |doc| ==> doc[p] != DOT
    ensures FractionEnd(doc, p) == p + |n.fraction|
  {
    var t := n.fraction;
    if t != [] {
      AtIndex(doc, p, t, 0);
      AtSplit(doc, p, t[..1], t[1..]);
      assert t == t[..1] + t[1..];
      DigitsTaken(doc, p + 1, t[1..]);
    }
  }

  /** The first byte of an exponent is its letter, the second a sign or a digit. */
  lemma ExponentParts(doc: Text, p: nat, n: Numeral)
    requires n.Wf() && At(doc, p, n.exponent) && n.exponent != []
    ensures Has(doc, p, {0x65, 0x45})
    ensures |n.exponent| > 1 ==> (Has(doc, p + 1, {0x2B, MINUS}) <==> n.Signed())
    ensures At(doc, p + (if n.Signed() then 2 else 1), n.ExponentDigits()) && Decimal.AllDigits(n.ExponentDigits())
  {
    var t := n.exponent;
    var k := if n.Signed() then 2 else 1;
    AtIndex(doc, p, t, 0);
    if |t| > 1 {
      AtIndex(doc, p, t, 1);
      assert !n.Signed() ==> Decimal.IsDigit(n.ExponentDigits()[0]);
    }
    AtSplit(doc, p, t[..k], t[k..]);
    assert t == t[..k] + t[k..];
  }

  lemma ExponentTaken(doc: Text, p: nat, n: Numeral)
    requires n.Wf() && At(doc, p, n.exponent)
    requires p + |n.exponent| < |doc| ==> !n.Extends(doc[p + |n.exponent|])
    ensures ExponentEnd(doc, p) == p + |n.exponent|
  {
    hide DigitsEnd, Decimal.AllDigits, At;
    if n.exponent == [] {
      AtEnds(doc, p, n.exponent);
    } else {
      ExponentParts(doc, p, n);
      DigitsTaken(doc, p + (if n.Signed() then 2 else 1), n.ExponentDigits());
    }
  }

  lemma AtEnds(doc: Text, p: nat, t: Text)
    requires At(doc, p, t)
    ensures p + |t| <= |doc|
  {
  }

  /** Where the parts of a numeral stand. */
  lemma NumeralParts(doc: Text, p: nat, n: Numeral)
    ensures At(doc, p, n.ToText()) <==>
            && At(doc, p, [n.first]) && At(doc, p + 1, n.digits) && At(doc, p + 1 + |n.digits|, n.fraction)
            && At(doc, p + 1 + |n.digits| + |n.fraction|, n.exponent)
    ensures |n.ToText()| == 1 + |n.digits| + |n.fraction| + |n.exponent|
  {
    hide At;
    AtSplit(doc, p, [n.first], n.digits + (n.fraction + n.exponent));
    AtSplit(doc, p + 1, n.digits, n.fraction + n.exponent);
    AtSplit(doc, p + 1 + |n.digits|, n.fraction, n.exponent);
  }

  lemma DigitsBounded(doc: Text, p: nat, n: Numeral)
    requires n.Wf() && At(doc, p, n.ToText()) && Bounded(doc, p, n)
    ensures var q := p + 1 + |n.digits|; var r := q + |n.fraction|;
            && (q < |doc| ==> !Decimal.IsDigit(doc[q])) && (r < |doc| ==> !Decimal.IsDigit(doc[r]))
            && (n.fraction == [] && q < |doc| ==> doc[q] != DOT)
  {
    NumeralParts(doc, p, n);
    var q := p + 1 + |n.digits|;
    if n.fraction != [] {
      AtIndex(doc, q, n.fraction, 0);
    }
    if n.exponent != [] {
      AtIndex(doc, q + |n.fraction|, n.exponent, 0);
    }
  }

  /** `readNumber` takes exactly the text of a numeral that cannot go on. */
  lemma NumeralTaken(doc: Text, p: nat, n: Numeral)
    requires n.Wf() && At(doc, p, n.ToText()) && Bounded(doc, p, n)
    ensures p < |doc| && doc[p] == n.first && NumberEnd(doc, p + 1) == p + |n.ToText()|
  {
    hide DigitsEnd, FractionEnd, ExponentEnd, At, Decimal.IsDigit;
    var q := p + 1 + |n.digits|;
    var r := q + |n.fraction|;
    NumeralParts(doc, p, n);
    DigitsBounded(doc, p, n);
    AtIndex(doc, p, [n.first], 0);
    DigitsTaken(doc, p + 1, n.digits);
    FractionTaken(doc, q, n);
    ExponentTaken(doc, r, n);
  }

  lemma FractionFound(doc: Text, p: nat) returns (t: Text)
    requires p <= |doc|
    ensures At(doc, p, t) && FractionEnd(doc, p) == p + |t|
    ensures t == [] || (t[0] == DOT && Decimal.AllDigits(t[1..]))
    ensures p + |t| < |doc| ==> (t != [] ==> !Decimal.IsDigit(doc[p + |t|])) && (t == [] ==> doc[p] != DOT)
  {
    t := doc[p..FractionEnd(doc, p)];
    if t != [] {
      DigitsFound(doc, p + 1);
      assert t[1..] == doc[p + 1..DigitsEnd(doc, p + 1)];
    }
  }

  lemma ExponentFound(doc: Text, p: nat) returns (t: Text)
    requires p <= |doc|
    ensures At(doc, p, t) && ExponentEnd(doc, p) == p + |t|
    ensures t != [] ==> t[0] in {0x65, 0x45}
    ensures t != [] ==> Decimal.AllDigits(if |t| > 1 && t[1] in {0x2B, MINUS} then t[2..] else t[1..])
    ensures p + |t| < |doc| ==> (t != [] ==> !Decimal.IsDigit(doc[p + |t|])) && (t == [] ==> doc[p] !in {0x65, 0x45})
                                && (|t| == 1 ==> doc[p + |t|] !in {0x2B, MINUS})
  {
    t := doc[p..ExponentEnd(doc, p)];
    if t != [] {
      var k := if Has(doc, p + 1, {0x2B, MINUS}) then 2 else 1;
      DigitsFound(doc, p + k);
      assert t[k..] == doc[p + k..DigitsEnd(doc, p + k)];
      assert |t| > 1 ==> t[1] == doc[p + 1];
    }
  }

  lemma OneByte(doc: Text, p: nat, q: nat)
    requires p < q <= |doc|
    ensures At(doc, p, [doc[p]]) && At(doc, p + 1, doc[p + 1..q])
  {
  }

  lemma NumeralMade(n: Numeral)
    requires (Decimal.IsDigit(n.first) || n.first == MINUS) && Decimal.AllDigits(n.digits)
    requires n.fraction == [] || (n.fraction[0] == DOT && Decimal.AllDigits(n.fraction[1..]))
    requires n.exponent != [] ==> n.exponent[0] in {0x65, 0x45}
    requires var t := n.exponent;
             t != [] ==> Decimal.AllDigits(if |t| > 1 && t[1] in {0x2B, MINUS} then t[2..] else t[1..])
    ensures n.Wf()
  {
    hide Decimal.IsDigit, Decimal.AllDigits;
  }

  lemma NumeralEnds(doc: Text, p: nat, n: Numeral)
    requires var q := p + 1 + |n.digits|; var r := q + |n.fraction|; var e := r + |n.exponent|;
             && (q < |doc| ==> !Decimal.IsDigit(doc[q]) && (n.fraction == [] ==> doc[q] != DOT))
             && (r < |doc| && n.fraction != [] ==> !Decimal.IsDigit(doc[r]))
             && (r < |doc| && n.exponent == [] ==> doc[r] !in {0x65, 0x45})
             && (e < |doc| && n.exponent != [] ==> !Decimal.IsDigit(doc[e]))
             && (e < |doc| && |n.exponent| == 1 ==> doc[e] !in {0x2B, MINUS})
    ensures Bounded(doc, p, n)
  {
    hide Decimal.IsDigit;
  }

  /** What `readNumber` takes is the text of a numeral that cannot go on. */
  lemma NumeralFound(doc: Text, p: nat) returns (n: Numeral)
    requires p < |doc| && (Decimal.IsDigit(doc[p]) || doc[p] == MINUS)
    ensures n.Wf() && At(doc, p, n.ToText()) && NumberEnd(doc, p + 1) == p + |n.ToText()| && Bounded(doc, p, n)
  {
    hide DigitsEnd, FractionEnd, ExponentEnd, Decimal.IsDigit, Decimal.AllDigits, At;
    DigitsFound(doc, p + 1);
    var q := DigitsEnd(doc, p + 1);
    var digits := doc[p + 1..q];
    var fraction := FractionFound(doc, q);
    var exponent := ExponentFound(doc, q + |fraction|);
    n := Numeral(doc[p], digits, fraction, exponent);
    OneByte(doc, p, q);
    NumeralParts(doc, p, n);
    NumeralMade(n);
    NumeralEnds(doc, p, n);
  }

  lemma DigitsJoin(a: Text, b: Text)
    ensures Decimal.AllDigits(a + b) <==> Decimal.AllDigits(a) && Decimal.AllDigits(b)
  {
    if Decimal.AllDigits(a + b) {
      assert forall c | c in a :: c in a + b;
      assert forall c | c in b :: c in a + b;
    }
  }

  /** A fraction or an exponent begins with no digit. */
  lemma IntegralDigits(n: Numeral)
    requires n.Wf()
    ensures Decimal.AllDigits(n.digits + (n.fraction + n.exponent)) <==> n.Integral()
  {
    DigitsJoin(n.digits, n.fraction + n.exponent);
    DigitsJoin(n.fraction, n.exponent);
    if n.fraction != [] {
      assert n.fraction[0] in n.fraction;
    }
    if n.exponent != [] {
      assert n.exponent[0] in n.exponent;
    }
  }

  /** `decodeNumber` stores what the numeral denotes. */
  lemma NumeralDecoded(n: Numeral, extracts: Text -> bool)
    requires n.Wf()
    ensures NumberValue(n.ToText(), extracts)
         == if n.Fits() || extracts(n.ToText()) then Some(NumberMeaning(n)) else None
  {
    var tail := n.digits + (n.fraction + n.exponent);
    IntegralDigits(n);
    assert n.ToText() == [n.first] + tail && n.ToText()[1..] == tail;
    assert Decimal.AllDigits([n.first]) <==> n.first != MINUS;
    DigitsJoin([n.first], tail);
    if n.Integral() {
      assert tail == n.digits;
    }
  }

  /** A byte that ends every numeral. */
  predicate EndsNumber(b: Byte) { !Decimal.IsDigit(b) && b !in {DOT, 0x65, 0x45, 0x2B, MINUS} }

  lemma Ended(doc: Text, p: nat, n: Numeral)
    requires var e := p + |n.ToText()|; e < |doc| ==> EndsNumber(doc[e])
    ensures Bounded(doc, p, n)
  {
  }

  /** A gap, or the punctuation behind an empty one, ends every numeral in front of it. */
  lemma GapEndsNumber(doc: Text, e: nat, g: Gap)
    requires GapWf(g) && At(doc, e, GapText(g))
    requires g == [] ==> e < |doc| && EndsNumber(doc[e])
    ensures e < |doc| && EndsNumber(doc[e])
  {
    if g != [] {
      AtIndex(doc, e, GapText(g), 0);
      assert BlankWf(g[0]);
    }
  }
}
