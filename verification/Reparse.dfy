/** Everything the reader accepts is in the form the writer's round trip preserves. */
module Reparse {
  import opened Bytes
  import Decimal
  import Quote
  import opened JsonValue
  import opened ReaderSpec
  import opened FastWriter
  import opened RoundTrip

  /** In range, sorted, tagged by value, and at most n levels deep. */
  predicate Canonical(v: Value, n: int) { Valid(v) && Retag(v) == v && DepthWithin(v, n) }

  predicate CanonicalMembers(ms: seq<Member>, n: int)
  {
    SortedKeys(ms) && forall m | m in ms :: Canonical(m.value, n)
  }

  predicate CanonicalItems(items: seq<Value>, n: int) { forall x | x in items :: Canonical(x, n) }

  /** A successful outcome holds a canonical value. */
  predicate Good(r: Outcome, n: int) { r.Done? && r.ok ==> Canonical(r.value, n) }

  lemma {:induction false} CanonicalObject(ms: seq<Member>, n: int)
    requires CanonicalMembers(ms, n) && n >= 0
    ensures Canonical(Obj(ms), n + 1)
  {
    RetagFixesMembers(ms, n);
  }

  lemma {:induction false} RetagFixesMembers(ms: seq<Member>, n: int)
    requires forall m | m in ms :: Canonical(m.value, n)
    ensures RetagMembers(ms) == ms
  {
    hide Valid, DepthWithin, Retag;
    if ms != [] {
      assert Canonical(ms[0].value, n);
      RetagFixesMembers(ms[1..], n);
      assert ms == [ms[0]] + ms[1..];
    }
  }

  lemma {:induction false} CanonicalArray(items: seq<Value>, n: int)
    requires CanonicalItems(items, n) && n >= 0
    ensures Canonical(Arr(items), n + 1)
  {
    RetagFixesItems(items, n);
  }

  lemma {:induction false} RetagFixesItems(items: seq<Value>, n: int)
    requires CanonicalItems(items, n)
    ensures RetagItems(items) == items
  {
    hide Valid, DepthWithin, Retag;
    if items != [] {
      assert Canonical(items[0], n);
      RetagFixesItems(items[1..], n);
      assert items == [items[0]] + items[1..];
    }
  }

  lemma PutKeepsCanonical(ms: seq<Member>, key: Text, v: Value, n: int)
    requires CanonicalMembers(ms, n) && Canonical(v, n)
    ensures CanonicalMembers(Put(ms, key, v), n)
  {
    hide Canonical, Put, SortedKeys;
    PutIsMapUpdate(ms, key, v, key);
    PutHoldsOneValue(ms, key, v);
  }

  lemma {:induction false} ReadValueCanonical(doc: Text, extracts: Text -> bool, pos: nat, cur: Value, nodes: nat)
    requires pos <= |doc|
    ensures Good(ReadValue(doc, extracts, pos, cur, nodes), STACK_LIMIT + 1 - nodes)
    decreases |doc| - pos, 2
  {
    hide SkipComments, ReadMembers, ReadArray, ReadScalar, Canonical;
    if nodes <= STACK_LIMIT {
      var t := SkipComments(doc, pos);
      if t.kind == ObjectBegin {
        ReadMembersCanonical(doc, extracts, t.end, [], [], nodes);
      } else if t.kind == ArrayBegin {
        ReadArrayCanonical(doc, extracts, t.end, nodes);
      } else {
        ScalarCanonical(doc, extracts, t, cur, STACK_LIMIT + 1 - nodes);
      }
    }
  }

  lemma ScalarCanonical(doc: Text, extracts: Text -> bool, t: Token, cur: Value, n: int)
    requires t.start <= t.end <= |doc| && (t.kind == StringToken ==> t.start + 2 <= t.end) && n >= 1
    ensures Good(ReadScalar(doc, extracts, t, cur), n)
  {
    hide Quote.DecodeBody, Decimal.NumberOf;
    NumbersAreTagged(doc[t.start..t.end]);
  }

  lemma NumbersAreTagged(token: Text)
    ensures match Decimal.NumberOf(token)
            case Signed(i) => Decimal.MIN_LARGEST_INT <= i <= Decimal.MAX_INT
            case Unsigned(u) => Decimal.MAX_INT < u <= Decimal.MAX_LARGEST_UINT
            case NotAnInteger => true
  {
  }

  lemma {:induction false} ReadMembersCanonical(doc: Text, extracts: Text -> bool, pos: nat, members: seq<Member>,
          name: Text, nodes: nat)
    requires pos <= |doc| && nodes <= STACK_LIMIT && CanonicalMembers(members, STACK_LIMIT - nodes)
    ensures Good(ReadMembers(doc, extracts, pos, members, name, nodes), STACK_LIMIT + 1 - nodes)
    decreases |doc| - pos, 1
  {
    hide SkipComments, ReadMember, Quote.DecodeBody, Recover, CanonicalMembers, Canonical;
    var t := SkipComments(doc, pos);
    CanonicalObject(members, STACK_LIMIT - nodes);
    if t.kind == StringToken {
      match Quote.DecodeBody(doc, t.start + 1, t.end - 1)
      case Undecodable(_, _) =>
      case Decoded(key) => ReadMemberCanonical(doc, extracts, t.end, members, key, nodes);
    }
  }

  lemma {:induction false} ReadMemberCanonical(doc: Text, extracts: Text -> bool, pos: nat, members: seq<Member>,
          key: Text, nodes: nat)
    requires pos <= |doc| && nodes <= STACK_LIMIT && CanonicalMembers(members, STACK_LIMIT - nodes)
    ensures Good(ReadMember(doc, extracts, pos, members, key, nodes), STACK_LIMIT + 1 - nodes)
    decreases |doc| - pos, 0
  {
    hide NextToken, SkipComments, ReadMembers, ReadValue, Recover, CanonicalMembers, Canonical, Put, GetOrNull;
    var colon := NextToken(doc, pos);
    if colon.kind == MemberSeparator {
      ReadValueCanonical(doc, extracts, colon.end, GetOrNull(members, key), nodes + 1);
      var r := ReadValue(doc, extracts, colon.end, GetOrNull(members, key), nodes + 1);
      if r.Done? && r.ok {
        var ms := Put(members, key, r.value);
        PutKeepsCanonical(members, key, r.value, STACK_LIMIT - nodes);
        CanonicalObject(ms, STACK_LIMIT - nodes);
        var comma := NextToken(doc, r.pos);
        var last := if comma.kind == Comment then SkipComments(doc, comma.end) else comma;
        if last.kind != ObjectEnd && last.end > r.pos {
          ReadMembersCanonical(doc, extracts, last.end, ms, key, nodes);
        }
      }
    }
  }

  lemma {:induction false} ReadArrayCanonical(doc: Text, extracts: Text -> bool, pos: nat, nodes: nat)
    requires pos <= |doc| && nodes <= STACK_LIMIT
    ensures Good(ReadArray(doc, extracts, pos, nodes), STACK_LIMIT + 1 - nodes)
    decreases |doc| - pos, 4
  {
    hide SkipSpaces, NextToken, ReadItems;
    ReadItemsCanonical(doc, extracts, SkipSpaces(doc, pos), [], nodes);
  }

  lemma {:induction false} ReadItemsCanonical(doc: Text, extracts: Text -> bool, pos: nat, items: seq<Value>,
          nodes: nat)
    requires pos <= |doc| && nodes <= STACK_LIMIT && CanonicalItems(items, STACK_LIMIT - nodes)
    ensures Good(ReadItems(doc, extracts, pos, items, nodes), STACK_LIMIT + 1 - nodes)
    decreases |doc| - pos, 3
  {
    hide SkipComments, ReadValue, Recover, Canonical;
    ReadValueCanonical(doc, extracts, pos, Null, nodes + 1);
    var r := ReadValue(doc, extracts, pos, Null, nodes + 1);
    if r.Done? && r.ok {
      var more := items + [r.value];
      CanonicalArray(more, STACK_LIMIT - nodes);
      var t := SkipComments(doc, r.pos);
      if t.kind == ArraySeparator {
        ReadItemsCanonical(doc, extracts, t.end, more, nodes);
      }
    }
  }

  /**
   * For every document the reader accepts, without reals: printing the value it yields and parsing
   * that text succeeds, and yields the very same value exactly when its strings are well-formed.
   */
  lemma ParseWriteParse(style: Style, doc: Text, extracts: Text -> bool, root: Value, again: Value)
    requires !style.dropNull
    ensures var r := Parse(doc, extracts, root);
            r.Done? && r.ok && NoReals(r.value) ==>
            var text := WrittenText(style, r.value);
            var second := Parse(text, extracts, again);
            && second.Done? && second.ok && second.pos == |text|
            && (second.value == r.value <==> Utf8Strings(r.value))
  {
    hide ReadValue, SkipComments, NoReals, Utf8Strings, Valid, DepthWithin, Retag, WrittenText;
    ReadValueCanonical(doc, extracts, 0, root, 1);
    var r := Parse(doc, extracts, root);
    if r.Done? && r.ok && NoReals(r.value) {
      ParseOfWritten(style, r.value, again, extracts);
    }
  }
}
