/** `Json::Value` trees, their member order and their total order. */
module JsonValue {
  import opened Bytes
  import Decimal
  import Utf8

  /**
   * A value tree. Arrays are dense; the members of an object are kept in the order of the map
   * that holds them. A real is represented by the number token it was read from.
   */
  datatype Value =
    | Null
    | Int(i: int)
    | UInt(u: nat)
    | Real(token: Text)
    | Str(s: Text)
    | Bool(b: bool)
    | Arr(items: seq<Value>)
    | Obj(members: seq<Member>)

  datatype Member = Member(key: Text, value: Value)

  // ---------- the order of keys and strings ----------

  /** The sign of `memcmp(a, b, n)`. */
  function Memcmp(a: Text, b: Text, n: nat): int
    requires n <= |a| && n <= |b|
  {
    if n == 0 then 0
    else if a[0] < b[0] then -1
    else if a[0] > b[0] then 1
    else Memcmp(a[1..], b[1..], n - 1)
  }

  /** `CZString::operator<` on strings, and the string case of `Value::operator<`. */
  predicate TextLess(a: Text, b: Text)
  {
    var comp := Memcmp(a, b, if |a| < |b| then |a| else |b|);
    comp < 0 || (comp == 0 && |a| < |b|)
  }

  /** Dictionary order, the reference definition. */
  predicate Before(a: Text, b: Text)
  {
    b != [] && (a == [] || a[0] < b[0] || (a[0] == b[0] && Before(a[1..], b[1..])))
  }

  lemma {:induction false} TextLessIsBefore(a: Text, b: Text)
    ensures TextLess(a, b) <==> Before(a, b)
  {
    if a != [] && b != [] && a[0] == b[0] {
      TextLessIsBefore(a[1..], b[1..]);
    }
  }

  lemma {:induction false} BeforeIsStrict(a: Text, b: Text)
    ensures !(Before(a, b) && Before(b, a)) && !Before(a, a)
    ensures a == b || Before(a, b) || Before(b, a)
  {
    if a != [] {
      BeforeIsStrict(a[1..], a[1..]);
      if b != [] && a[0] == b[0] {
        BeforeIsStrict(a[1..], b[1..]);
        assert a == [a[0]] + a[1..] && b == [b[0]] + b[1..];
      }
    }
  }

  lemma {:induction false} BeforeIsTransitive(a: Text, b: Text, c: Text)
    requires Before(a, b) && Before(b, c)
    ensures Before(a, c)
  {
    if a != [] && a[0] == b[0] == c[0] {
      BeforeIsTransitive(a[1..], b[1..], c[1..]);
    }
  }

  /** The order of strings is a strict total order. */
  lemma TextOrder(a: Text, b: Text, c: Text)
    ensures !TextLess(a, a) && !(TextLess(a, b) && TextLess(b, a))
    ensures a == b || TextLess(a, b) || TextLess(b, a)
    ensures TextLess(a, b) && TextLess(b, c) ==> TextLess(a, c)
  {
    hide TextLess;
    TextLessIsBefore(a, a);
    TextLessIsBefore(a, b);
    TextLessIsBefore(b, a);
    TextLessIsBefore(b, c);
    TextLessIsBefore(a, c);
    BeforeIsStrict(a, b);
    if Before(a, b) && Before(b, c) {
      BeforeIsTransitive(a, b, c);
    }
  }

  // ---------- object members ----------

  predicate SortedKeys(ms: seq<Member>)
  {
    forall i, j | 0 <= i < j < |ms| :: TextLess(ms[i].key, ms[j].key)
  }

  /** The member value `operator[]` finds, or the null it creates. */
  function GetOrNull(ms: seq<Member>, key: Text): Value
  {
    if ms == [] then Null
    else if ms[0].key == key then ms[0].value
    else GetOrNull(ms[1..], key)
  }

  /** The members once the value at key has been set: `resolveReference` inserts at the lower bound. */
  function Put(ms: seq<Member>, key: Text, v: Value): (r: seq<Member>)
    ensures r != []
  {
    if ms == [] then [Member(key, v)]
    else if TextLess(ms[0].key, key) then [ms[0]] + Put(ms[1..], key, v)
    else if ms[0].key == key then [Member(key, v)] + ms[1..]
    else [Member(key, v)] + ms
  }

  /** Setting a key keeps the order, gives that key that value, and leaves every other key alone. */
  lemma {:induction false} PutIsMapUpdate(ms: seq<Member>, key: Text, v: Value, other: Text)
    requires SortedKeys(ms)
    ensures SortedKeys(Put(ms, key, v))
    ensures forall m | m in Put(ms, key, v) :: m.key == key || m in ms
    ensures GetOrNull(Put(ms, key, v), key) == v
    ensures other != key ==> GetOrNull(Put(ms, key, v), other) == GetOrNull(ms, other)
  {
    hide TextLess;
    var r := Put(ms, key, v);
    if ms == [] {
    } else if TextLess(ms[0].key, key) {
      PutIsMapUpdate(ms[1..], key, v, other);
      TextOrder(ms[0].key, key, key);
      var rest := Put(ms[1..], key, v);
      forall j | 0 < j < |r| ensures TextLess(r[0].key, r[j].key) {
        assert rest[j - 1] in rest;
        if rest[j - 1].key != key {
          var k :| 0 <= k < |ms[1..]| && ms[1..][k] == rest[j - 1];
          assert ms[k + 1] == rest[j - 1];
        }
      }
    } else if ms[0].key == key {
      assert r[1..] == ms[1..];
      SortedTail(ms, key, v);
    } else {
      assert r[1..] == ms;
      TextOrder(key, ms[0].key, key);
      forall j | 0 < j < |r| ensures TextLess(r[0].key, r[j].key) {
        if j > 1 { TextOrder(key, ms[0].key, ms[j - 1].key); }
      }
    }
  }

  lemma SortedTail(ms: seq<Member>, key: Text, v: Value)
    requires SortedKeys(ms) && ms != [] && ms[0].key == key
    ensures SortedKeys([Member(key, v)] + ms[1..])
  {
    hide TextLess;
    var r := [Member(key, v)] + ms[1..];
    assert forall i | 0 <= i < |r| :: r[i].key == ms[i].key;
  }

  /** Every member of the result is an old one or the one just set. */
  lemma {:induction false} PutHoldsOneValue(ms: seq<Member>, key: Text, v: Value)
    ensures forall m | m in Put(ms, key, v) :: m == Member(key, v) || m in ms
  {
    hide TextLess;
    if ms != [] {
      PutHoldsOneValue(ms[1..], key, v);
    }
  }

  /** Setting a key above all others appends it. */
  lemma {:induction false} PutAppends(ms: seq<Member>, key: Text, v: Value)
    requires forall m | m in ms :: TextLess(m.key, key)
    ensures Put(ms, key, v) == ms + [Member(key, v)]
    ensures GetOrNull(ms, key) == Null
  {
    hide TextLess;
    if ms != [] {
      assert TextLess(ms[0].key, key);
      TextOrder(ms[0].key, key, key);
      PutAppends(ms[1..], key, v);
      assert ms == [ms[0]] + ms[1..];
    }
  }

  // ---------- shape ----------

  /** The values the program builds: integer fields in range, object keys strictly sorted. */
  predicate Valid(v: Value)
  {
    match v
    case Int(i) => Decimal.MIN_LARGEST_INT <= i <= Decimal.MAX_LARGEST_INT
    case UInt(u) => u <= Decimal.MAX_LARGEST_UINT
    case Arr(items) => forall x | x in items :: Valid(x)
    case Obj(members) => SortedKeys(members) && forall m | m in members :: Valid(m.value)
    case _ => true
  }

  predicate NoReals(v: Value)
  {
    match v
    case Real(_) => false
    case Arr(items) => forall x | x in items :: NoReals(x)
    case Obj(members) => forall m | m in members :: NoReals(m.value)
    case _ => true
  }

  /** Every string and key is well-formed UTF-8. */
  predicate Utf8Strings(v: Value)
  {
    match v
    case Str(s) => Utf8.WellFormed(s)
    case Arr(items) => forall x | x in items :: Utf8Strings(x)
    case Obj(members) => forall m | m in members :: Utf8.WellFormed(m.key) && Utf8Strings(m.value)
    case _ => true
  }

  /** No array or object is nested deeper than n levels, a scalar counting as one. */
  predicate DepthWithin(v: Value, n: int)
  {
    n >= 1 &&
    match v
    case Arr(items) => forall x | x in items :: DepthWithin(x, n - 1)
    case Obj(members) => forall m | m in members :: DepthWithin(m.value, n - 1)
    case _ => true
  }

  /** An integer with the tag the reader gives its numeric value. */
  function Tagged(n: int): Value
  {
    if n <= Decimal.MAX_INT then Int(n) else UInt(n)
  }

  /** The tree with every integer retagged by its numeric value. */
  function Retag(v: Value): Value
    decreases v, 0
  {
    match v
    case Int(i) => Tagged(i)
    case UInt(u) => Tagged(u)
    case Arr(items) => Arr(RetagItems(items))
    case Obj(members) => Obj(RetagMembers(members))
    case _ => v
  }

  function RetagItems(items: seq<Value>): seq<Value>
    decreases items, 1
  {
    if items == [] then [] else [Retag(items[0])] + RetagItems(items[1..])
  }

  function RetagMembers(members: seq<Member>): seq<Member>
    decreases members, 1
  {
    if members == [] then []
    else [Member(members[0].key, Retag(members[0].value))] + RetagMembers(members[1..])
  }
}
