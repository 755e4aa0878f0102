/** `Json::FastWriter`: the compact printer. */
module FastWriter {
  import opened Bytes
  import Decimal
  import Quote
  import opened JsonValue

  /** The writer's options, and how it prints the real read from a number token. */
  datatype Style = Style(yamlCompatibility: bool, dropNull: bool, omitLineFeed: bool, realText: Text -> Text)

  function BoolText(b: bool): Text { if b then TRUE_TEXT else FALSE_TEXT }

  function Colon(style: Style): Text { if style.yamlCompatibility then [COLON, SPACE] else [COLON] }

  /** The text of a value. */
  function ValueText(style: Style, v: Value): Text
    decreases v, 0
  {
    match v
    case Null => if style.dropNull then [] else NULL_TEXT
    case Int(i) => Decimal.IntText(i)
    case UInt(u) => Decimal.IntText(u)
    case Real(token) => style.realText(token)
    case Str(s) => Quote.Quoted(s)
    case Bool(b) => BoolText(b)
    case Arr(items) => [LBRACKET] + ItemsText(style, items) + [RBRACKET]
    case Obj(members) => [LBRACE] + MembersText(style, members) + [RBRACE]
  }

  function MemberText(style: Style, m: Member): Text
    decreases m, 1
  {
    Quote.Quoted(m.key) + Colon(style) + ValueText(style, m.value)
  }

  /** Items separated by commas. */
  function ItemsText(style: Style, items: seq<Value>): Text
    decreases items, 1
  {
    if items == [] then []
    else if |items| == 1 then ValueText(style, items[0])
    else ValueText(style, items[0]) + [COMMA] + ItemsText(style, items[1..])
  }

  /** Members separated by commas. */
  function MembersText(style: Style, members: seq<Member>): Text
    decreases members, 1
  {
    if members == [] then []
    else if |members| == 1 then MemberText(style, members[0])
    else MemberText(style, members[0]) + [COMMA] + MembersText(style, members[1..])
  }

  function WrittenText(style: Style, v: Value): Text
  {
    ValueText(style, v) + if style.omitLineFeed then [] else [LF]
  }

  /** One more item at the end of a non-empty prefix is one more comma and its text. */
  lemma {:induction false} ItemsTextGrows(style: Style, items: seq<Value>, k: nat)
    requires k < |items|
    ensures ItemsText(style, items[..k + 1])
         == ItemsText(style, items[..k]) + (if k > 0 then [COMMA] else []) + ValueText(style, items[k])
  {
    if k > 0 {
      ItemsTextGrows(style, items[1..], k - 1);
      assert items[..k + 1][1..] == items[1..][..k] && items[..k][1..] == items[1..][..k - 1];
      if k == 1 {
        assert items[1..][..0] == [];
      }
    }
  }

  lemma {:induction false} MembersTextGrows(style: Style, members: seq<Member>, k: nat)
    requires k < |members|
    ensures MembersText(style, members[..k + 1])
         == MembersText(style, members[..k]) + (if k > 0 then [COMMA] else []) + MemberText(style, members[k])
  {
    if k > 0 {
      MembersTextGrows(style, members[1..], k - 1);
      assert members[..k + 1][1..] == members[1..][..k] && members[..k][1..] == members[1..][..k - 1];
      if k == 1 {
        assert members[1..][..0] == [];
      }
    }
  }

  /** With `dropNullPlaceholders` a null is no text, so different trees are printed alike. */
  lemma DroppedNulls(style: Style)
    requires style.dropNull
    ensures ValueText(style, Arr([Null])) == ValueText(style, Arr([])) == [0x5B, 0x5D]
    ensures ValueText(style, Arr([Null, Null])) == [0x5B, 0x2C, 0x5D]
  {
    assert [Null, Null][1..] == [Null];
  }

  // ---------- one line ----------

  lemma {:induction false} IntegerIsPlain(value: int)
    ensures Quote.Plain(Decimal.IntText(value))
  {
    var digits := Decimal.Digits(if value < 0 then -value else value);
    forall b | b in Decimal.IntText(value) ensures 0x20 <= b <= 0x7F {
      assert b in digits ==> Decimal.IsDigit(b);
    }
  }

  lemma QuotedIsPlain(s: Text)
    ensures Quote.Plain(Quote.Quoted(s))
  {
    Quote.QuoteBodyIsPlain(s);
  }

  /** A value is printed without line feeds or other control characters, whatever bytes its strings hold. */
  lemma {:induction false} ValueIsPlain(style: Style, v: Value)
    requires NoReals(v)
    ensures Quote.Plain(ValueText(style, v))
    decreases v, 0
  {
    hide Quote.Quoted, Decimal.IntText;
    match v
    case Int(i) => IntegerIsPlain(i);
    case UInt(u) => IntegerIsPlain(u);
    case Str(s) => QuotedIsPlain(s);
    case Arr(items) => ItemsArePlain(style, items);
    case Obj(members) => MembersArePlain(style, members);
    case _ =>
  }

  lemma {:induction false} ItemsArePlain(style: Style, items: seq<Value>)
    requires forall x | x in items :: NoReals(x)
    ensures Quote.Plain(ItemsText(style, items))
    decreases items, 1
  {
    hide ValueText, NoReals;
    if items != [] {
      ValueIsPlain(style, items[0]);
      ItemsArePlain(style, items[1..]);
    }
  }

  lemma {:induction false} MembersArePlain(style: Style, members: seq<Member>)
    requires forall m | m in members :: NoReals(m.value)
    ensures Quote.Plain(MembersText(style, members))
    decreases members, 1
  {
    hide ValueText, NoReals, Quote.Quoted;
    if members != [] {
      QuotedIsPlain(members[0].key);
      ValueIsPlain(style, members[0].value);
      MembersArePlain(style, members[1..]);
    }
  }

  /** What the writer writes is one line: a line feed ends it unless that is to be left out, and there is no other. */
  lemma OneLine(style: Style, v: Value)
    requires NoReals(v)
    ensures var text := WrittenText(style, v);
            && (!style.omitLineFeed ==> text != [] && text[|text| - 1] == 0x0A)
            && (style.omitLineFeed ==> 0x0A !in text)
            && forall i | 0 <= i < |text| - 1 :: text[i] != 0x0A
  {
    hide ValueText;
    ValueIsPlain(style, v);
    var body, text := ValueText(style, v), WrittenText(style, v);
    forall i | 0 <= i < |body| ensures text[i] != 0x0A {
      assert text[i] == body[i] && body[i] in body;
    }
  }

  class Writer {
    var document: Text
    const style: Style

    constructor (style: Style)
      ensures this.style == style && document == []
    {
      this.style := style;
      document := [];
    }

    method Write(root: Value) returns (text: Text)
      requires Valid(root)
      modifies this
      ensures text == WrittenText(style, root) && document == text
    {
      document := [];
      WriteValue(root);
      if !style.omitLineFeed {
        document := document + [LF];
      }
      return document;
    }

    method WriteValue(value: Value)
      requires Valid(value)
      modifies this
      ensures document == old(document) + ValueText(style, value)
      decreases value
    {
      hide Quote.Quoted, Decimal.IntText, ItemsText, MembersText;
      match value
      case Null =>
        if !style.dropNull {
          document := document + NULL_TEXT;
        }
      case Int(i) =>
        var text := Decimal.ValueToStringSigned(i);
        document := document + text;
      case UInt(u) =>
        var text := Decimal.ValueToStringUnsigned(u);
        document := document + text;
      case Real(token) =>
        document := document + style.realText(token);
      case Str(s) =>
        var text := Quote.ValueToQuotedStringN(s);
        document := document + text;
      case Bool(b) =>
        document := document + BoolText(b);
      case Arr(items) =>
        document := document + [LBRACKET];
        WriteItems(items);
        document := document + [RBRACKET];
      case Obj(members) =>
        document := document + [LBRACE];
        WriteMembers(members);
        document := document + [RBRACE];
    }

    method WriteItems(items: seq<Value>)
      requires forall x | x in items :: Valid(x)
      modifies this
      ensures document == old(document) + ItemsText(style, items)
      decreases items
    {
      hide ValueText, ItemsText, Valid;
      assert ItemsText(style, items[..0]) == [] by { EmptyText(style); }
      for index := 0 to |items|
        invariant document == old(document) + ItemsText(style, items[..index])
      {
        ItemsTextGrows(style, items, index);
        if index > 0 {
          document := document + [COMMA];
        }
        WriteValue(items[index]);
      }
      assert items[..|items|] == items;
    }

    method WriteMembers(members: seq<Member>)
      requires forall m | m in members :: Valid(m.value)
      modifies this
      ensures document == old(document) + MembersText(style, members)
      decreases members
    {
      hide ValueText, MembersText, Valid, Quote.Quoted;
      assert MembersText(style, members[..0]) == [] by { EmptyText(style); }
      for index := 0 to |members|
        invariant document == old(document) + MembersText(style, members[..index])
      {
        MembersTextGrows(style, members, index);
        if index != 0 {
          document := document + [COMMA];
        }
        WriteMember(members[index]);
      }
      assert members[..|members|] == members;
    }

    method WriteMember(m: Member)
      requires Valid(m.value)
      modifies this
      ensures document == old(document) + MemberText(style, m)
      decreases m
    {
      hide Quote.Quoted, ValueText, Valid;
      var name := Quote.ValueToQuotedStringN(m.key);
      document := document + name;
      document := document + if style.yamlCompatibility then [COLON, SPACE] else [COLON];
      WriteValue(m.value);
    }
  }

  lemma EmptyText(style: Style)
    ensures ItemsText(style, []) == [] && MembersText(style, []) == []
  {
  }
}
