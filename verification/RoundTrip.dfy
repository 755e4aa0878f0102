/** Reading back what `FastWriter` wrote: its text is a document of the grammar. */
module RoundTrip {
  import opened Bytes
  import opened Decimal
  import opened Quote
  import opened StringSyntax
  import Utf8
  import opened JsonValue
  import opened ReaderSpec
  import opened Syntax
  import opened Lexing
  import opened Accepts
  import opened FastWriter

  /** The trees that are written as JSON. */
  predicate Writable(style: Style, v: Value) { Valid(v) && NoReals(v) && !style.dropNull }

  // ---------- the derivation of a written value ----------

  function NumeralOf(n: int): Numeral { Numeral(IntText(n)[0], IntText(n)[1..], [], []) }

  function BehindColon(style: Style): Gap { if style.yamlCompatibility then [Space(SPACE)] else [] }

  function TreeOf(style: Style, v: Value): Tree
    requires NoReals(v)
    decreases v, 0
  {
    match v
    case Null => Constant(NULL_TEXT)
    case Int(i) => Number(NumeralOf(i))
    case UInt(u) => Number(NumeralOf(u))
    case Str(s) => String(WrittenPieces(s))
    case Bool(b) => Constant(BoolText(b))
    case Arr(items) => if items == [] then EmptyArray([]) else Array(ElementsOf(style, items))
    case Obj(members) => Object(FieldsOf(style, members))
  }

  function ElementsOf(style: Style, items: seq<Value>): Elements
    requires items != [] && forall x | x in items :: NoReals(x)
    decreases items, 1
  {
    if |items| == 1 then LastElement([], TreeOf(style, items[0]), [])
    else MoreElements([], TreeOf(style, items[0]), [], ElementsOf(style, items[1..]))
  }

  function FieldOf(style: Style, m: Member): Field
    requires NoReals(m.value)
    decreases m, 1
  {
    Field([], WrittenPieces(m.key), [], BehindColon(style), TreeOf(style, m.value), [])
  }

  function FieldsOf(style: Style, members: seq<Member>): Fields
    requires forall m | m in members :: NoReals(m.value)
    decreases members, 1
  {
    if members == [] then NoField([])
    else if |members| == 1 then LastField(FieldOf(style, members[0]))
    else MoreFields(FieldOf(style, members[0]), [COMMA], FieldsOf(style, members[1..]))
  }

  // ---------- its text ----------

  lemma NumeralOfInteger(n: int, extracts: Text -> bool)
    requires MIN_LARGEST_INT <= n <= MAX_LARGEST_UINT
    ensures Wf(Number(NumeralOf(n)), extracts) && TreeText(Number(NumeralOf(n))) == IntText(n)
    ensures Meaning(Number(NumeralOf(n)), extracts) == Tagged(n)
  {
    var numeral := NumeralOf(n);
    NumeralOfText(n);
    hide IntText, AllDigits, IsDigit, Magnitude;
    assert numeral.Fits();
    assert IntText(n) == [numeral.first] + (numeral.digits + ([] + []));
  }

  lemma NumeralOfText(n: int)
    ensures var numeral := NumeralOf(n);
            && numeral.Wf() && numeral.Integral() && numeral.Integer() == n
            && IntText(n) == [numeral.first] + numeral.digits
  {
    var t, numeral := IntText(n), NumeralOf(n);
    assert t == [t[0]] + t[1..];
    if n < 0 {
      MagnitudeOfDigits(-n);
      assert t[1..] == Digits(-n);
    } else {
      MagnitudeOfDigits(n);
      assert AllDigits(t) && t[0] in t && forall b | b in t[1..] :: b in t;
    }
  }

  lemma WrittenString(s: Text, extracts: Text -> bool)
    ensures PiecesWf(WrittenPieces(s)) && NameText(WrittenPieces(s)) == Quoted(s)
    ensures PiecesMeaning(WrittenPieces(s)) == ReadBackAll(Utf8.CodePoints(s))
  {
    hide QuoteBody, WrittenPieces, PiecesText, PiecesMeaning, PiecesWf;
    WrittenIsPieces(s);
  }

  lemma ColonText(style: Style)
    ensures GapWf(BehindColon(style)) && [COLON] + GapText(BehindColon(style)) == Colon(style) && GapText([]) == []
  {
    assert [Space(SPACE)][1..] == [];
  }

  /** The text of the derivation is what the writer writes. */
  lemma {:induction false} TreeWritten(style: Style, v: Value, extracts: Text -> bool)
    requires Writable(style, v)
    ensures Wf(TreeOf(style, v), extracts) && TreeText(TreeOf(style, v)) == ValueText(style, v)
    decreases v, 0
  {
    hide IntText, Quoted, PiecesText, WrittenPieces, PiecesWf, ItemsText, MembersText, SortedKeys, GapText, GapWf;
    match v {
      case Int(i) => NumeralOfInteger(i, extracts);
      case UInt(u) => NumeralOfInteger(u, extracts);
      case Str(s) => WrittenString(s, extracts);
      case Arr(items) =>
        if items == [] {
          EmptyArrayWritten(style, extracts);
        } else {
          ElementsWritten(style, items, extracts);
        }
      case Obj(members) => FieldsWritten(style, members, [], extracts);
      case _ =>
    }
  }

  lemma EmptyArrayWritten(style: Style, extracts: Text -> bool)
    ensures var d := EmptyArray([]); Wf(d, extracts) && TreeText(d) == ValueText(style, Arr([]))
  {
    EmptyText(style);
    NoBlanks();
  }

  lemma {:induction false} ElementsWritten(style: Style, items: seq<Value>, extracts: Text -> bool)
    requires items != [] && !style.dropNull
    requires (forall x | x in items :: Valid(x)) && (forall x | x in items :: NoReals(x))
    ensures ElementsWf(ElementsOf(style, items), extracts)
    ensures ElementsText(ElementsOf(style, items)) == ItemsText(style, items) + [RBRACKET]
    decreases items, 1
  {
    hide Valid, TreeText, ValueText, TreeOf, Wf;
    TreeWritten(style, items[0], extracts);
    assert GapText([]) == [];
    if |items| > 1 {
      ElementsWritten(style, items[1..], extracts);
    }
  }

  lemma {:induction false} FieldWritten(style: Style, m: Member, extracts: Text -> bool)
    requires Writable(style, m.value)
    ensures FieldWf(FieldOf(style, m), extracts) && FieldText(FieldOf(style, m)) == MemberText(style, m)
    decreases m, 1
  {
    hide Valid, TreeText, ValueText, TreeOf, Wf, PiecesText, WrittenPieces, PiecesWf, Quoted, NameText, GapText;
    hide GapWf, FieldText, SpacesOnly;
    TreeWritten(style, m.value, extracts);
    WrittenString(m.key, extracts);
    ColonText(style);
    NoBlanks();
    CompactField(FieldOf(style, m));
    assert TreeText(TreeOf(style, m.value)) + [] == TreeText(TreeOf(style, m.value));
  }

  lemma {:induction false} FieldsWritten(style: Style, members: seq<Member>, last: Text, extracts: Text -> bool)
    requires !style.dropNull && (members == [] ==> last == [])
    requires (forall m | m in members :: Valid(m.value)) && (forall m | m in members :: NoReals(m.value))
    ensures FieldsWf(FieldsOf(style, members), last, extracts)
    ensures FieldsText(FieldsOf(style, members)) == MembersText(style, members) + [RBRACE]
    decreases members, 2
  {
    hide Valid, NoReals, FieldText, MemberText, FieldWf, PiecesMeaning, PiecesWf, WrittenPieces, Quoted, NameText;
    hide TreeOf;
    NoBlanks();
    if members != [] {
      FieldWritten(style, members[0], extracts);
      assert FieldWf(FieldOf(style, members[0]), extracts);
      if |members| > 1 {
        WrittenString(members[0].key, extracts);
        FieldsWritten(style, members[1..], PiecesMeaning(WrittenPieces(members[0].key)), extracts);
      }
    }
  }

  /** The writer separates by commas only. */
  lemma {:induction false} CommasSeparate(style: Style, v: Value, doc: Text, p: nat)
    requires NoReals(v)
    ensures Separated(doc, p, TreeOf(style, v))
    decreases v, 0
  {
    match v {
      case Arr(items) => if items != [] { ElementCommas(style, items, doc, p + 1); }
      case Obj(members) => FieldCommas(style, members, doc, p + 1);
      case _ =>
    }
  }

  lemma {:induction false} ElementCommas(style: Style, items: seq<Value>, doc: Text, p: nat)
    requires items != [] && forall x | x in items :: NoReals(x)
    ensures ElementsSeparated(doc, p, ElementsOf(style, items))
    decreases items, 1
  {
    hide TreeOf, TreeText, Separated, GapText, NoReals;
    var es := ElementsOf(style, items);
    var q := p + |GapText(es.before)|;
    CommasSeparate(style, items[0], doc, q);
    if |items| > 1 {
      ElementCommas(style, items[1..], doc, q + |TreeText(es.item)| + |GapText(es.after)| + 1);
    }
  }

  lemma {:induction false} FieldCommas(style: Style, members: seq<Member>, doc: Text, p: nat)
    requires forall m | m in members :: NoReals(m.value)
    ensures FieldsSeparated(doc, p, FieldsOf(style, members))
    decreases members, 1
  {
    hide TreeOf, FieldText, Separated, ValueStart, NoReals;
    if members != [] {
      var f := FieldOf(style, members[0]);
      CommasSeparate(style, members[0].value, doc, ValueStart(p, f));
      if |members| > 1 {
        FieldCommas(style, members[1..], doc, p + |FieldText(f)| + 1);
      }
    }
  }

  // ---------- its nesting ----------

  lemma {:induction false} DepthKept(style: Style, v: Value, n: int)
    requires NoReals(v)
    ensures Within(TreeOf(style, v), n) <==> DepthWithin(v, n)
    decreases v, 0
  {
    match v {
      case Arr(items) => if items != [] { ElementDepthKept(style, items, n - 1); }
      case Obj(members) => FieldDepthKept(style, members, n - 1);
      case _ =>
    }
  }

  lemma {:induction false} ElementDepthKept(style: Style, items: seq<Value>, n: int)
    requires items != [] && forall x | x in items :: NoReals(x)
    ensures ElementsWithin(ElementsOf(style, items), n) <==> forall x | x in items :: DepthWithin(x, n)
    decreases items, 1
  {
    hide TreeOf, Within, DepthWithin, NoReals;
    DepthKept(style, items[0], n);
    assert items == [items[0]] + items[1..];
    if |items| > 1 {
      ElementDepthKept(style, items[1..], n);
    }
  }

  lemma {:induction false} FieldDepthKept(style: Style, members: seq<Member>, n: int)
    requires forall m | m in members :: NoReals(m.value)
    ensures FieldsWithin(FieldsOf(style, members), n) <==> forall m | m in members :: DepthWithin(m.value, n)
    decreases members, 1
  {
    hide TreeOf, Within, DepthWithin, NoReals;
    if members != [] {
      DepthKept(style, members[0].value, n);
      assert members == [members[0]] + members[1..];
      if |members| > 1 {
        FieldDepthKept(style, members[1..], n);
      }
    }
  }

  // ---------- its meaning ----------

  /** A string once it has been written and read back. */
  function Relayed(s: Text): Text { ReadBackAll(Utf8.CodePoints(s)) }

  lemma RelayedIffWellFormed(s: Text)
    ensures Relayed(s) == s <==> Utf8.WellFormed(s)
    ensures Utf8.WellFormed(Relayed(Relayed(s)))
  {
    ReadBackIffWellFormed(s);
    TwiceIsWellFormed(s);
  }

  /** The value read back from the text of v. */
  function Reread(style: Style, v: Value, extracts: Text -> bool): Value
    requires Writable(style, v)
  {
    TreeWritten(style, v, extracts);
    Meaning(TreeOf(style, v), extracts)
  }

  predicate WritableItems(style: Style, items: seq<Value>)
  {
    !style.dropNull && (forall x | x in items :: Valid(x)) && (forall x | x in items :: NoReals(x))
  }

  predicate WritableMembers(style: Style, ms: seq<Member>)
  {
    !style.dropNull && (forall m | m in ms :: Valid(m.value)) && (forall m | m in ms :: NoReals(m.value))
  }

  /** The members once the written fields have been read on top of `done`. */
  function FieldsReread(style: Style, done: seq<Member>, ms: seq<Member>, extracts: Text -> bool): seq<Member>
    requires WritableMembers(style, ms)
    decreases |ms|
  {
    if ms == [] then done
    else
      assert ms[0] in ms;
      FieldsReread(style, Put(done, Relayed(ms[0].key), Reread(style, ms[0].value, extracts)), ms[1..], extracts)
  }

  lemma {:induction false} FieldsMeanReread(style: Style, done: seq<Member>, ms: seq<Member>, last: Text,
          extracts: Text -> bool)
    requires WritableMembers(style, ms) && FieldsWf(FieldsOf(style, ms), last, extracts)
    ensures FieldsMeaning(done, FieldsOf(style, ms), last, extracts) == FieldsReread(style, done, ms, extracts)
    decreases |ms|
  {
    hide TreeOf, Put, Valid, NoReals, WrittenPieces, Utf8.CodePoints, PiecesMeaning, PiecesWf, Meaning, Wf;
    if ms != [] {
      assert ms[0] in ms;
      var f := FieldOf(style, ms[0]);
      WrittenString(ms[0].key, extracts);
      TreeWritten(style, ms[0].value, extracts);
      var more := Put(done, Relayed(ms[0].key), Reread(style, ms[0].value, extracts));
      assert FieldWf(f, extracts) && WithField(done, f, extracts) == more;
      if |ms| > 1 {
        FieldsMeanReread(style, more, ms[1..], PiecesMeaning(f.name), extracts);
      } else {
        assert FieldsReread(style, more, ms[1..], extracts) == more;
      }
    }
  }

  /** Every key that is read back was written as some key. */
  lemma {:induction false} KeyReread(style: Style, done: seq<Member>, ms: seq<Member>, extracts: Text -> bool,
          m: Member)
    returns (from: Member)
    requires WritableMembers(style, ms) && m in FieldsReread(style, done, ms, extracts)
    ensures (from in done && m.key == from.key) || (from in ms && m.key == Relayed(from.key))
    decreases |ms|
  {
    hide Put, Valid, NoReals, Relayed, Reread;
    from := m;
    if ms != [] {
      assert ms[0] in ms;
      var key, v := Relayed(ms[0].key), Reread(style, ms[0].value, extracts);
      from := KeyReread(style, Put(done, key, v), ms[1..], extracts, m);
      PutHoldsOneValue(done, key, v);
      if !(from in ms[1..] && m.key == Relayed(from.key)) && from !in done {
        from := ms[0];
      }
    }
  }

  predicate KeysWellFormed(ms: seq<Member>) { forall m | m in ms :: Utf8.WellFormed(m.key) }

  /** If the keys come back unchanged, all of them are well-formed: each has been relayed twice. */
  lemma KeysKept(style: Style, ms: seq<Member>, extracts: Text -> bool)
    requires WritableMembers(style, ms) && FieldsReread(style, [], ms, extracts) == RetagMembers(ms)
    ensures KeysWellFormed(ms)
  {
    hide FieldsReread, Valid, NoReals, Relayed, Utf8.WellFormed;
    forall m | m in ms ensures Utf8.WellFormed(m.key) {
      var first := RelayedKey(style, ms, extracts, m);
      var second := RelayedKey(style, ms, extracts, first);
      RelayedIffWellFormed(second.key);
    }
  }

  lemma RelayedKey(style: Style, ms: seq<Member>, extracts: Text -> bool, m: Member) returns (from: Member)
    requires WritableMembers(style, ms) && FieldsReread(style, [], ms, extracts) == RetagMembers(ms) && m in ms
    ensures from in ms && m.key == Relayed(from.key)
  {
    hide FieldsReread, Valid, NoReals, Relayed;
    var i :| 0 <= i < |ms| && ms[i] == m;
    RetaggedMember(ms, i);
    from := KeyReread(style, [], ms, extracts, RetagMembers(ms)[i]);
  }

  lemma {:induction false} RetaggedMember(ms: seq<Member>, i: nat)
    requires i < |ms|
    ensures |RetagMembers(ms)| == |ms| && RetagMembers(ms)[i] == Member(ms[i].key, Retag(ms[i].value))
    decreases |ms|
  {
    hide Retag;
    if i > 0 {
      RetaggedMember(ms[1..], i - 1);
    } else if |ms| > 1 {
      RetaggedMember(ms[1..], 0);
    }
  }

  function RereadMembers(style: Style, ms: seq<Member>, extracts: Text -> bool): seq<Member>
    requires WritableMembers(style, ms)
    decreases |ms|
  {
    if ms == [] then []
    else
      assert ms[0] in ms;
      [Member(ms[0].key, Reread(style, ms[0].value, extracts))] + RereadMembers(style, ms[1..], extracts)
  }

  lemma SortedStep(done: seq<Member>, ms: seq<Member>, v: Value)
    requires ms != [] && SortedKeys(ms) && forall d, m | d in done && m in ms :: TextLess(d.key, m.key)
    ensures SortedKeys(ms[1..]) && forall d | d in done :: TextLess(d.key, ms[0].key)
    ensures forall d, m | d in done + [Member(ms[0].key, v)] && m in ms[1..] :: TextLess(d.key, m.key)
  {
    hide TextLess;
    assert ms[0] in ms;
    forall d, m | d in done + [Member(ms[0].key, v)] && m in ms[1..] ensures TextLess(d.key, m.key) {
      assert m in ms;
      if d !in done {
        var i :| 0 <= i < |ms[1..]| && ms[1..][i] == m;
        assert ms[i + 1] == m;
      }
    }
  }

  /** Well-formed keys come back in their order. */
  lemma {:induction false} FieldsKept(style: Style, done: seq<Member>, ms: seq<Member>, extracts: Text -> bool)
    requires WritableMembers(style, ms) && KeysWellFormed(ms) && SortedKeys(ms)
    requires forall d, m | d in done && m in ms :: TextLess(d.key, m.key)
    ensures FieldsReread(style, done, ms, extracts) == done + RereadMembers(style, ms, extracts)
    decreases |ms|
  {
    hide Valid, NoReals, Relayed, Reread, TextLess, Utf8.WellFormed, SortedKeys, Put;
    if ms != [] {
      var m := ms[0];
      assert m in ms;
      var v := Reread(style, m.value, extracts);
      SortedStep(done, ms, v);
      RelayedIffWellFormed(m.key);
      PutAppends(done, m.key, v);
      var more := done + [Member(m.key, v)];
      FieldsKept(style, more, ms[1..], extracts);
      assert done + RereadMembers(style, ms, extracts) == more + RereadMembers(style, ms[1..], extracts);
    }
  }

  lemma SameHeadAndTail<T>(a: T, x: seq<T>, b: T, y: seq<T>)
    ensures [a] + x == [b] + y <==> a == b && x == y
  {
    if [a] + x == [b] + y {
      assert ([a] + x)[0] == a && ([a] + x)[1..] == x;
      assert ([b] + y)[0] == b && ([b] + y)[1..] == y;
    }
  }

  /** A tree comes back retagged exactly when all its strings and keys are well-formed. */
  lemma {:induction false} RereadIffUtf8(style: Style, v: Value, extracts: Text -> bool)
    requires Writable(style, v)
    ensures Reread(style, v, extracts) == Retag(v) <==> Utf8Strings(v)
    decreases v, 0
  {
    hide Relayed, Utf8.WellFormed, Utf8.CodePoints, ElementsOf, FieldsOf, SortedKeys, IntText, WrittenPieces;
    hide PiecesMeaning, PiecesWf;
    TreeWritten(style, v, extracts);
    match v {
      case Int(i) => NumeralOfInteger(i, extracts);
      case UInt(u) => NumeralOfInteger(u, extracts);
      case Str(s) =>
        WrittenString(s, extracts);
        ReadBackIffWellFormed(s);
      case Arr(items) => if items != [] { ItemsIffUtf8(style, items, extracts); }
      case Obj(members) => MembersIffUtf8(style, members, extracts);
      case _ =>
    }
  }

  lemma {:induction false} ItemsIffUtf8(style: Style, items: seq<Value>, extracts: Text -> bool)
    requires items != [] && WritableItems(style, items) && ElementsWf(ElementsOf(style, items), extracts)
    ensures ElementsMeaning(ElementsOf(style, items), extracts) == RetagItems(items)
       <==> forall x | x in items :: Utf8Strings(x)
    decreases items, 1
  {
    hide Valid, NoReals, Utf8Strings, TreeOf, Meaning, Wf, Retag;
    assert items[0] in items;
    RereadIffUtf8(style, items[0], extracts);
    assert items == [items[0]] + items[1..];
    if |items| > 1 {
      ItemsIffUtf8(style, items[1..], extracts);
      SameHeadAndTail(Reread(style, items[0], extracts), ElementsMeaning(ElementsOf(style, items[1..]), extracts),
                      Retag(items[0]), RetagItems(items[1..]));
    } else {
      assert items == [items[0]] && RetagItems(items) == [Retag(items[0])] + [];
      assert [Retag(items[0])] + [] == [Retag(items[0])];
      assert [Reread(style, items[0], extracts)] == [Retag(items[0])]
          <==> Reread(style, items[0], extracts) == Retag(items[0]) by {
        SameHeadAndTail(Reread(style, items[0], extracts), [], Retag(items[0]), []);
      }
    }
  }

  lemma {:induction false} MembersIffUtf8(style: Style, ms: seq<Member>, extracts: Text -> bool)
    requires WritableMembers(style, ms) && SortedKeys(ms) && FieldsWf(FieldsOf(style, ms), [], extracts)
    ensures FieldsMeaning([], FieldsOf(style, ms), [], extracts) == RetagMembers(ms)
       <==> forall m | m in ms :: Utf8.WellFormed(m.key) && Utf8Strings(m.value)
    decreases ms, 2
  {
    hide Valid, NoReals, Utf8Strings, Utf8.WellFormed, FieldsOf, FieldsMeaning, FieldsWf, FieldsReread, RetagMembers;
    hide RereadMembers, SortedKeys;
    FieldsMeanReread(style, [], ms, [], extracts);
    if FieldsReread(style, [], ms, extracts) == RetagMembers(ms) {
      KeysKept(style, ms, extracts);
    }
    if KeysWellFormed(ms) {
      FieldsKept(style, [], ms, extracts);
      assert [] + RereadMembers(style, ms, extracts) == RereadMembers(style, ms, extracts);
      ValuesIffUtf8(style, ms, extracts);
    }
  }

  lemma {:induction false} ValuesIffUtf8(style: Style, ms: seq<Member>, extracts: Text -> bool)
    requires WritableMembers(style, ms)
    ensures RereadMembers(style, ms, extracts) == RetagMembers(ms) <==> forall m | m in ms :: Utf8Strings(m.value)
    decreases ms, 1
  {
    hide Valid, NoReals, Utf8Strings, Reread, Retag;
    if ms != [] {
      assert ms[0] in ms;
      RereadIffUtf8(style, ms[0].value, extracts);
      ValuesIffUtf8(style, ms[1..], extracts);
      assert ms == [ms[0]] + ms[1..];
      SameHeadAndTail(Member(ms[0].key, Reread(style, ms[0].value, extracts)), RereadMembers(style, ms[1..], extracts),
                      Member(ms[0].key, Retag(ms[0].value)), RetagMembers(ms[1..]));
    }
  }

  // ---------- the theorems ----------

  /**
   * For every tree without reals, on arbitrary bytes: parsing what the writer printed consumes the
   * whole text and leaves no error exactly when the nesting is within the stack limit, and throws
   * otherwise; what it yields is the tree with every integer retagged by its numeric value exactly
   * when every string and key is well-formed UTF-8.
   */
  lemma ParseOfWritten(style: Style, v: Value, root: Value, extracts: Text -> bool)
    requires Writable(style, v)
    ensures var doc := WrittenText(style, v);
            Parse(doc, extracts, root)
            == if DepthWithin(v, STACK_LIMIT) then Done(true, |doc|, Reread(style, v, extracts), []) else Thrown
    ensures Reread(style, v, extracts) == Retag(v) <==> Utf8Strings(v)
  {
    hide ValueText, Valid, NoReals, DepthWithin, Within, TreeText, Separated, Parse, Retag, Utf8Strings, Wf;
    var doc := WrittenText(style, v);
    RereadIffUtf8(style, v, extracts);
    TreeWritten(style, v, extracts);
    CommasSeparate(style, v, doc, 0);
    DepthKept(style, v, STACK_LIMIT);
    WrittenDocument(style, v, extracts);
    DocumentAccepted(doc, extracts, [], TreeOf(style, v), root);
    LastByte(doc, |ValueText(style, v)|);
  }

  lemma WrittenDocument(style: Style, v: Value, extracts: Text -> bool)
    requires Writable(style, v)
    requires Wf(TreeOf(style, v), extracts) && TreeText(TreeOf(style, v)) == ValueText(style, v)
    requires Separated(WrittenText(style, v), 0, TreeOf(style, v))
    ensures Document(WrittenText(style, v), extracts, [], TreeOf(style, v)) && GapText([]) == []
  {
    hide ValueText, Valid, NoReals, TreeText, Separated, TreeOf, Wf;
    var d := TreeOf(style, v);
    assert At(WrittenText(style, v), 0, TreeText(d));
    if d.Number? {
      NumberText(d);
      Ended(WrittenText(style, v), 0, d.numeral);
    }
  }

  /** Behind the last value there is nothing, or one line feed. */
  lemma LastByte(doc: Text, e: nat)
    requires e == |doc| || (e + 1 == |doc| && doc[e] == LF)
    ensures SkipComments(doc, e).end == |doc|
  {
  }

  /** Writing the value read back gives the same text. */
  lemma {:induction false} RetagKeepsText(style: Style, v: Value)
    ensures ValueText(style, Retag(v)) == ValueText(style, v)
    decreases v, 0
  {
    hide IntText, Quoted;
    match v {
      case Arr(items) => RetagKeepsItems(style, items);
      case Obj(members) => RetagKeepsMembers(style, members);
      case _ =>
    }
  }

  lemma {:induction false} RetagKeepsItems(style: Style, items: seq<Value>)
    ensures ItemsText(style, RetagItems(items)) == ItemsText(style, items) && |RetagItems(items)| == |items|
    decreases items, 1
  {
    hide ValueText;
    if items != [] {
      RetagKeepsText(style, items[0]);
      RetagKeepsItems(style, items[1..]);
      assert RetagItems(items)[1..] == RetagItems(items[1..]);
    }
  }

  lemma {:induction false} RetagKeepsMembers(style: Style, members: seq<Member>)
    ensures MembersText(style, RetagMembers(members)) == MembersText(style, members)
         && |RetagMembers(members)| == |members|
    decreases members, 1
  {
    hide ValueText, Quoted;
    if members != [] {
      RetagKeepsText(style, members[0].value);
      RetagKeepsMembers(style, members[1..]);
      assert RetagMembers(members)[1..] == RetagMembers(members[1..]);
    }
  }

  /** Printing, parsing and printing again reproduces the text. */
  lemma WriteParseWrite(style: Style, v: Value, root: Value, extracts: Text -> bool)
    requires Writable(style, v) && Utf8Strings(v) && DepthWithin(v, STACK_LIMIT)
    ensures var r := Parse(WrittenText(style, v), extracts, root);
            r.Done? && r.ok && r.value == Retag(v) && WrittenText(style, r.value) == WrittenText(style, v)
  {
    hide Parse, ValueText, Valid, NoReals, Utf8Strings, DepthWithin, Reread;
    ParseOfWritten(style, v, root, extracts);
    RetagKeepsText(style, v);
  }
}
