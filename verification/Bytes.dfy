/** Octets, and where a text stands inside a document. */
module Bytes {

  type Byte = b: int | 0 <= b < 256
  type Text = seq<Byte>

  const QUOTE: Byte := 0x22
  const COMMA: Byte := 0x2C
  const MINUS: Byte := 0x2D
  const DOT: Byte := 0x2E
  const SLASH: Byte := 0x2F
  const STAR: Byte := 0x2A
  const ZERO: Byte := 0x30
  const COLON: Byte := 0x3A
  const LBRACKET: Byte := 0x5B
  const BACKSLASH: Byte := 0x5C
  const RBRACKET: Byte := 0x5D
  const LBRACE: Byte := 0x7B
  const RBRACE: Byte := 0x7D
  const SPACE: Byte := 0x20
  const TAB: Byte := 0x09
  const LF: Byte := 0x0A
  const CR: Byte := 0x0D

  const NULL_TEXT: Text := [0x6E, 0x75, 0x6C, 0x6C]
  const TRUE_TEXT: Text := [0x74, 0x72, 0x75, 0x65]
  const FALSE_TEXT: Text := [0x66, 0x61, 0x6C, 0x73, 0x65]

  /** The document holds the text t starting at pos. */
  ghost predicate At(doc: Text, pos: nat, t: Text)
  {
    pos + |t| <= |doc| && doc[pos..pos + |t|] == t
  }

  lemma AtSplit(doc: Text, pos: nat, a: Text, b: Text)
    ensures At(doc, pos, a + b) <==> At(doc, pos, a) && At(doc, pos + |a|, b)
  {
    if At(doc, pos, a + b) {
      var w := doc[pos..pos + |a + b|];
      assert w[..|a|] == a && w[|a|..] == b;
      assert doc[pos..pos + |a|] == w[..|a|];
      assert doc[pos + |a|..pos + |a| + |b|] == w[|a|..];
    }
    if At(doc, pos, a) && At(doc, pos + |a|, b) {
      assert doc[pos..pos + |a + b|] == doc[pos..pos + |a|] + doc[pos + |a|..pos + |a| + |b|];
    }
  }

  lemma AtIndex(doc: Text, pos: nat, t: Text, k: nat)
    requires At(doc, pos, t) && k < |t|
    ensures pos + k < |doc| && doc[pos + k] == t[k]
  {
    assert doc[pos..pos + |t|][k] == t[k];
  }
}
