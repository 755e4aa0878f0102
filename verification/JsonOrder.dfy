/**
 * `Value::operator<`, `operator==` and `compare`. Reals are ordered by the parameters `realLess`
 * and `realEqual` on the number tokens they were read from; the theorems are about trees without reals.
 */
module JsonOrder {
  import opened Bytes
  import opened JsonValue

  datatype Reals = Reals(less: (Text, Text) -> bool, equal: (Text, Text) -> bool)

  /** The numbering of `enum ValueType`. */
  function TypeRank(v: Value): nat
  {
    match v
    case Null => 0
    case Int(_) => 1
    case UInt(_) => 2
    case Real(_) => 3
    case Str(_) => 4
    case Bool(_) => 5
    case Arr(_) => 6
    case Obj(_) => 7
  }

  function Size(v: Value): nat
    decreases v, 0
  {
    match v
    case Arr(items) => 1 + ItemsSize(items)
    case Obj(members) => 1 + MembersSize(members)
    case _ => 1
  }

  function ItemsSize(items: seq<Value>): nat
    decreases items, 1
  {
    if items == [] then 0 else 1 + Size(items[0]) + ItemsSize(items[1..])
  }

  function MembersSize(members: seq<Member>): nat
    decreases members, 1
  {
    if members == [] then 0 else 1 + Size(members[0].value) + MembersSize(members[1..])
  }

  /** `operator<`: by type, then by size, then entry by entry. */
  predicate Less(r: Reals, a: Value, b: Value)
    decreases Size(a) + Size(b), 0
  {
    if TypeRank(a) != TypeRank(b) then TypeRank(a) < TypeRank(b)
    else
      match a
      case Null => false
      case Int(i) => i < b.i
      case UInt(u) => u < b.u
      case Real(token) => r.less(token, b.token)
      case Str(s) => TextLess(s, b.s)
      case Bool(x) => !x && b.b
      case Arr(items) => if |items| != |b.items| then |items| < |b.items| else ItemsLess(r, items, b.items)
      case Obj(members) =>
        if |members| != |b.members| then |members| < |b.members| else MembersLess(r, members, b.members)
  }

  /** The comparison of two maps of equal size with the same indices as keys. */
  predicate ItemsLess(r: Reals, a: seq<Value>, b: seq<Value>)
    requires |a| == |b|
    decreases ItemsSize(a) + ItemsSize(b), 1
  {
    a != [] && (Less(r, a[0], b[0]) || (!Less(r, b[0], a[0]) && ItemsLess(r, a[1..], b[1..])))
  }

  /** The comparison of two (key, value) pairs. */
  predicate MemberLess(r: Reals, m: Member, n: Member)
    decreases Size(m.value) + Size(n.value), 1
  {
    TextLess(m.key, n.key) || (!TextLess(n.key, m.key) && Less(r, m.value, n.value))
  }

  /** The comparison of two maps of equal size. */
  predicate MembersLess(r: Reals, a: seq<Member>, b: seq<Member>)
    requires |a| == |b|
    decreases MembersSize(a) + MembersSize(b), 1
  {
    a != [] && (MemberLess(r, a[0], b[0]) || (!MemberLess(r, b[0], a[0]) && MembersLess(r, a[1..], b[1..])))
  }

  /** `CZString::operator==`, and the string case of `Value::operator==`. */
  predicate TextEqual(a: Text, b: Text) { |a| == |b| && Memcmp(a, b, |a|) == 0 }

  /** `operator==`. */
  predicate Equal(r: Reals, a: Value, b: Value)
    decreases a, 0
  {
    TypeRank(a) == TypeRank(b) &&
    match a
    case Null => true
    case Int(i) => i == b.i
    case UInt(u) => u == b.u
    case Real(token) => r.equal(token, b.token)
    case Str(s) => TextEqual(s, b.s)
    case Bool(x) => x == b.b
    case Arr(items) => |items| == |b.items| && ItemsEqual(r, items, b.items)
    case Obj(members) => |members| == |b.members| && MembersEqual(r, members, b.members)
  }

  predicate ItemsEqual(r: Reals, a: seq<Value>, b: seq<Value>)
    requires |a| == |b|
    decreases a, 1
  {
    a == [] || (Equal(r, a[0], b[0]) && ItemsEqual(r, a[1..], b[1..]))
  }

  predicate MembersEqual(r: Reals, a: seq<Member>, b: seq<Member>)
    requires |a| == |b|
    decreases a, 1
  {
    a == [] || (TextEqual(a[0].key, b[0].key) && Equal(r, a[0].value, b[0].value) && MembersEqual(r, a[1..], b[1..]))
  }

  /** `compare`. */
  function Compare(r: Reals, a: Value, b: Value): int
  {
    if Less(r, a, b) then -1 else if Less(r, b, a) then 1 else 0
  }

  // ---------- equality is identity ----------

  lemma {:induction false} MemcmpZero(a: Text, b: Text)
    requires |a| == |b|
    ensures Memcmp(a, b, |a|) == 0 <==> a == b
  {
    if a != [] {
      MemcmpZero(a[1..], b[1..]);
      assert a == [a[0]] + a[1..] && b == [b[0]] + b[1..];
    }
  }

  lemma {:induction false} EqualIsIdentity(r: Reals, a: Value, b: Value)
    requires NoReals(a) && NoReals(b)
    ensures Equal(r, a, b) <==> a == b
    decreases a, 0
  {
    hide Memcmp;
    if TypeRank(a) == TypeRank(b) {
      match a {
        case Str(s) => if |s| == |b.s| { MemcmpZero(s, b.s); }
        case Arr(items) => if |items| == |b.items| { ItemsEqualIsIdentity(r, items, b.items); }
        case Obj(members) => if |members| == |b.members| { MembersEqualIsIdentity(r, members, b.members); }
        case _ =>
      }
    }
  }

  lemma {:induction false} ItemsEqualIsIdentity(r: Reals, a: seq<Value>, b: seq<Value>)
    requires |a| == |b| && (forall x | x in a :: NoReals(x)) && (forall x | x in b :: NoReals(x))
    ensures ItemsEqual(r, a, b) <==> a == b
    decreases a, 1
  {
    hide Equal, NoReals;
    if a != [] {
      EqualIsIdentity(r, a[0], b[0]);
      ItemsEqualIsIdentity(r, a[1..], b[1..]);
      assert a == [a[0]] + a[1..] && b == [b[0]] + b[1..];
    }
  }

  lemma {:induction false} MembersEqualIsIdentity(r: Reals, a: seq<Member>, b: seq<Member>)
    requires |a| == |b| && (forall m | m in a :: NoReals(m.value)) && (forall m | m in b :: NoReals(m.value))
    ensures MembersEqual(r, a, b) <==> a == b
    decreases a, 1
  {
    hide Equal, NoReals, Memcmp;
    if a != [] {
      if |a[0].key| == |b[0].key| { MemcmpZero(a[0].key, b[0].key); }
      EqualIsIdentity(r, a[0].value, b[0].value);
      MembersEqualIsIdentity(r, a[1..], b[1..]);
      assert a == [a[0]] + a[1..] && b == [b[0]] + b[1..];
    }
  }

  // ---------- which order it is ----------

  /** The types as `enum ValueType` lists them: a's comes before b's. */
  predicate TypeBefore(a: Value, b: Value)
  {
    match a
    case Null => !b.Null?
    case Int(_) => !b.Null? && !b.Int?
    case UInt(_) => b.Real? || b.Str? || b.Bool? || b.Arr? || b.Obj?
    case Real(_) => b.Str? || b.Bool? || b.Arr? || b.Obj?
    case Str(_) => b.Bool? || b.Arr? || b.Obj?
    case Bool(_) => b.Arr? || b.Obj?
    case Arr(_) => b.Obj?
    case Obj(_) => false
  }

  /**
   * The reference order on trees without reals: the type decides first; integers by number, false
   * before true, strings as in a dictionary; the smaller container first, and of two containers of
   * one size the first place where they differ decides.
   */
  ghost predicate Precedes(a: Value, b: Value)
    decreases a
  {
    || TypeBefore(a, b)
    || (a.Int? && b.Int? && a.i < b.i)
    || (a.UInt? && b.UInt? && a.u < b.u)
    || (a.Str? && b.Str? && Before(a.s, b.s))
    || (a == Bool(false) && b == Bool(true))
    || (a.Arr? && b.Arr? && |a.items| < |b.items|)
    || (a.Arr? && b.Arr? && |a.items| == |b.items|
        && exists k :: 0 <= k < |a.items| && a.items[..k] == b.items[..k] && Precedes(a.items[k], b.items[k]))
    || (a.Obj? && b.Obj? && |a.members| < |b.members|)
    || (a.Obj? && b.Obj? && |a.members| == |b.members|
        && exists k ::
             && 0 <= k < |a.members| && a.members[..k] == b.members[..k]
             && (Before(a.members[k].key, b.members[k].key)
                 || (a.members[k].key == b.members[k].key && Precedes(a.members[k].value, b.members[k].value))))
  }

  /** Two arrays of one size differ at k for the first time, and there a precedes b. */
  ghost predicate ItemDecides(a: seq<Value>, b: seq<Value>, k: int)
    requires |a| == |b|
  {
    0 <= k < |a| && a[..k] == b[..k] && Precedes(a[k], b[k])
  }

  ghost predicate MemberPrecedes(m: Member, n: Member)
  {
    Before(m.key, n.key) || (m.key == n.key && Precedes(m.value, n.value))
  }

  ghost predicate MemberDecides(a: seq<Member>, b: seq<Member>, k: int)
    requires |a| == |b|
  {
    0 <= k < |a| && a[..k] == b[..k] && MemberPrecedes(a[k], b[k])
  }

  /** A place that decides is the first one, or a place of the rest behind equal first entries. */
  lemma SamePrefix<T>(a: seq<T>, b: seq<T>, k: nat)
    requires |a| == |b| && 0 < k < |a|
    ensures a[..k] == b[..k] <==> a[0] == b[0] && a[1..][..k - 1] == b[1..][..k - 1]
    ensures a[1..][k - 1] == a[k]
  {
    assert a[..k] == [a[0]] + a[1..][..k - 1] && b[..k] == [b[0]] + b[1..][..k - 1];
    assert a[..k][1..] == a[1..][..k - 1] && b[..k][1..] == b[1..][..k - 1];
    assert a[..k][0] == a[0] && b[..k][0] == b[0];
  }

  lemma {:induction false} ItemsLessIsPrecedes(r: Reals, a: seq<Value>, b: seq<Value>)
    requires |a| == |b| && (forall x | x in a :: NoReals(x)) && (forall x | x in b :: NoReals(x))
    ensures ItemsLess(r, a, b) <==> exists k :: ItemDecides(a, b, k)
    decreases ItemsSize(a) + ItemsSize(b), 1
  {
    hide Less, NoReals, Precedes;
    if a != [] {
      LessIsPrecedes(r, a[0], b[0]);
      Trichotomy(r, a[0], b[0]);
      ItemsLessIsPrecedes(r, a[1..], b[1..]);
      if Less(r, a[0], b[0]) {
        assert ItemDecides(a, b, 0);
      } else if ItemsLess(r, a, b) {
        var k :| ItemDecides(a[1..], b[1..], k);
        SamePrefix(a, b, k + 1);
        SamePrefix(b, a, k + 1);
        assert ItemDecides(a, b, k + 1);
      }
      if k :| ItemDecides(a, b, k) && k > 0 {
        SamePrefix(a, b, k);
        SamePrefix(b, a, k);
        assert ItemDecides(a[1..], b[1..], k - 1);
      }
    }
  }

  lemma {:induction false} MemberLessIsPrecedes(r: Reals, m: Member, n: Member)
    requires NoReals(m.value) && NoReals(n.value)
    ensures MemberLess(r, m, n) <==> MemberPrecedes(m, n)
    decreases Size(m.value) + Size(n.value), 1
  {
    hide Less, NoReals, TextLess, Before, Precedes;
    TextLessIsBefore(m.key, n.key);
    TextOrder(m.key, n.key, m.key);
    LessIsPrecedes(r, m.value, n.value);
  }

  lemma {:induction false} MembersLessIsPrecedes(r: Reals, a: seq<Member>, b: seq<Member>)
    requires |a| == |b| && (forall m | m in a :: NoReals(m.value)) && (forall m | m in b :: NoReals(m.value))
    ensures MembersLess(r, a, b) <==> exists k :: MemberDecides(a, b, k)
    decreases MembersSize(a) + MembersSize(b), 1
  {
    hide MemberLess, NoReals, MemberPrecedes;
    if a != [] {
      MemberLessIsPrecedes(r, a[0], b[0]);
      MemberTrichotomy(r, a[0], b[0]);
      MembersLessIsPrecedes(r, a[1..], b[1..]);
      if MemberLess(r, a[0], b[0]) {
        assert MemberDecides(a, b, 0);
      } else if MembersLess(r, a, b) {
        var k :| MemberDecides(a[1..], b[1..], k);
        SamePrefix(a, b, k + 1);
        SamePrefix(b, a, k + 1);
        assert MemberDecides(a, b, k + 1);
      }
      if k :| MemberDecides(a, b, k) && k > 0 {
        SamePrefix(a, b, k);
        SamePrefix(b, a, k);
        assert MemberDecides(a[1..], b[1..], k - 1);
      }
    }
  }

  lemma ArraysPrecede(a: seq<Value>, b: seq<Value>)
    requires |a| == |b|
    ensures Precedes(Arr(a), Arr(b)) <==> exists k :: ItemDecides(a, b, k)
  {
    hide Before;
    if k :| ItemDecides(a, b, k) {
      assert a[..k] == b[..k];
    }
    if Precedes(Arr(a), Arr(b)) {
      var k :| 0 <= k < |a| && a[..k] == b[..k] && Precedes(a[k], b[k]);
      assert ItemDecides(a, b, k);
    }
  }

  lemma ObjectsPrecede(a: seq<Member>, b: seq<Member>)
    requires |a| == |b|
    ensures Precedes(Obj(a), Obj(b)) <==> exists k :: MemberDecides(a, b, k)
  {
    hide Before;
    if k :| MemberDecides(a, b, k) {
      assert a[..k] == b[..k];
    }
    if Precedes(Obj(a), Obj(b)) {
      var k :| 0 <= k < |a| && a[..k] == b[..k] && MemberPrecedes(a[k], b[k]);
      assert MemberDecides(a, b, k);
    }
  }

  /** `operator<` is the reference order. */
  lemma {:induction false} LessIsPrecedes(r: Reals, a: Value, b: Value)
    requires NoReals(a) && NoReals(b)
    ensures Less(r, a, b) <==> Precedes(a, b)
    decreases Size(a) + Size(b), 0
  {
    hide TextLess, Before, ItemsLess, MembersLess;
    if a.Arr? && b.Arr? && |a.items| == |b.items| {
      ItemsLessIsPrecedes(r, a.items, b.items);
      ArraysPrecede(a.items, b.items);
    } else if a.Obj? && b.Obj? && |a.members| == |b.members| {
      MembersLessIsPrecedes(r, a.members, b.members);
      ObjectsPrecede(a.members, b.members);
    } else if a.Str? && b.Str? {
      TextLessIsBefore(a.s, b.s);
    }
  }

  // ---------- exactly one of a < b, a == b, b < a ----------

  predicate ExactlyOne(x: bool, y: bool, z: bool) { (x || y || z) && !(x && y) && !(x && z) && !(y && z) }

  lemma {:induction false} Trichotomy(r: Reals, a: Value, b: Value)
    requires NoReals(a) && NoReals(b)
    ensures ExactlyOne(Less(r, a, b), a == b, Less(r, b, a))
    decreases Size(a) + Size(b), 0
  {
    hide TextLess;
    if TypeRank(a) == TypeRank(b) {
      match a {
        case Str(s) => TextOrder(s, b.s, s);
        case Arr(items) => if |items| == |b.items| { ItemsTrichotomy(r, items, b.items); }
        case Obj(members) => if |members| == |b.members| { MembersTrichotomy(r, members, b.members); }
        case _ =>
      }
    }
  }

  lemma {:induction false} ItemsTrichotomy(r: Reals, a: seq<Value>, b: seq<Value>)
    requires |a| == |b| && (forall x | x in a :: NoReals(x)) && (forall x | x in b :: NoReals(x))
    ensures ExactlyOne(ItemsLess(r, a, b), a == b, ItemsLess(r, b, a))
    decreases ItemsSize(a) + ItemsSize(b), 1
  {
    hide Less, NoReals;
    if a != [] {
      Trichotomy(r, a[0], b[0]);
      ItemsTrichotomy(r, a[1..], b[1..]);
      assert a == [a[0]] + a[1..] && b == [b[0]] + b[1..];
    }
  }

  lemma {:induction false} MemberTrichotomy(r: Reals, m: Member, n: Member)
    requires NoReals(m.value) && NoReals(n.value)
    ensures ExactlyOne(MemberLess(r, m, n), m == n, MemberLess(r, n, m))
    decreases Size(m.value) + Size(n.value), 1
  {
    hide Less, NoReals, TextLess;
    TextOrder(m.key, n.key, m.key);
    Trichotomy(r, m.value, n.value);
  }

  lemma {:induction false} MembersTrichotomy(r: Reals, a: seq<Member>, b: seq<Member>)
    requires |a| == |b| && (forall m | m in a :: NoReals(m.value)) && (forall m | m in b :: NoReals(m.value))
    ensures ExactlyOne(MembersLess(r, a, b), a == b, MembersLess(r, b, a))
    decreases MembersSize(a) + MembersSize(b), 1
  {
    hide MemberLess, NoReals;
    if a != [] {
      MemberTrichotomy(r, a[0], b[0]);
      MembersTrichotomy(r, a[1..], b[1..]);
      assert a == [a[0]] + a[1..] && b == [b[0]] + b[1..];
    }
  }

  // ---------- transitivity ----------

  lemma {:induction false} Transitive(r: Reals, a: Value, b: Value, c: Value)
    requires NoReals(a) && NoReals(b) && NoReals(c)
    requires Less(r, a, b) && Less(r, b, c)
    ensures Less(r, a, c)
    decreases a, 0
  {
    hide TextLess;
    if TypeRank(a) == TypeRank(b) == TypeRank(c) {
      match a {
        case Str(s) => TextOrder(s, b.s, c.s);
        case Arr(items) =>
          if |items| == |b.items| == |c.items| { ItemsTransitive(r, items, b.items, c.items); }
        case Obj(members) =>
          if |members| == |b.members| == |c.members| { MembersTransitive(r, members, b.members, c.members); }
        case _ =>
      }
    }
  }

  lemma {:induction false} ItemsTransitive(r: Reals, a: seq<Value>, b: seq<Value>, c: seq<Value>)
    requires |a| == |b| == |c|
    requires (forall x | x in a :: NoReals(x)) && (forall x | x in b :: NoReals(x)) && (forall x | x in c :: NoReals(x))
    requires ItemsLess(r, a, b) && ItemsLess(r, b, c)
    ensures ItemsLess(r, a, c)
    decreases a, 1
  {
    hide Less, NoReals;
    if a != [] {
      Trichotomy(r, a[0], b[0]);
      Trichotomy(r, b[0], c[0]);
      Trichotomy(r, a[0], c[0]);
      if Less(r, a[0], b[0]) && Less(r, b[0], c[0]) {
        Transitive(r, a[0], b[0], c[0]);
      } else if a[0] == b[0] == c[0] {
        ItemsTransitive(r, a[1..], b[1..], c[1..]);
      }
    }
  }

  lemma {:induction false} MemberTransitive(r: Reals, m: Member, n: Member, o: Member)
    requires NoReals(m.value) && NoReals(n.value) && NoReals(o.value)
    requires MemberLess(r, m, n) && MemberLess(r, n, o)
    ensures MemberLess(r, m, o)
    decreases m, 1
  {
    hide Less, NoReals, TextLess;
    TextOrder(m.key, n.key, o.key);
    TextOrder(o.key, m.key, n.key);
    TextOrder(n.key, o.key, m.key);
    if m.key == n.key == o.key {
      Transitive(r, m.value, n.value, o.value);
    }
  }

  lemma {:induction false} MembersTransitive(r: Reals, a: seq<Member>, b: seq<Member>, c: seq<Member>)
    requires |a| == |b| == |c|
    requires forall m | m in a + b + c :: NoReals(m.value)
    requires MembersLess(r, a, b) && MembersLess(r, b, c)
    ensures MembersLess(r, a, c)
    decreases a, 1
  {
    hide MemberLess, NoReals;
    if a != [] {
      assert a[0] in a + b + c && b[0] in a + b + c && c[0] in a + b + c;
      MemberTrichotomy(r, a[0], b[0]);
      MemberTrichotomy(r, b[0], c[0]);
      MemberTrichotomy(r, a[0], c[0]);
      if MemberLess(r, a[0], b[0]) && MemberLess(r, b[0], c[0]) {
        MemberTransitive(r, a[0], b[0], c[0]);
      } else if a[0] == b[0] == c[0] {
        MembersTransitive(r, a[1..], b[1..], c[1..]);
      }
    }
  }

  /**
   * `operator<` is a strict total order whose equality is `operator==`, and `compare` is its sign:
   * the sign of the reference order.
   */
  lemma StrictTotalOrder(r: Reals, a: Value, b: Value, c: Value)
    requires NoReals(a) && NoReals(b) && NoReals(c)
    ensures ExactlyOne(Less(r, a, b), Equal(r, a, b), Less(r, b, a))
    ensures Less(r, a, b) && Less(r, b, c) ==> Less(r, a, c)
    ensures Compare(r, a, b) == if Precedes(a, b) then -1 else if a == b then 0 else 1
    ensures Compare(r, a, b) == -Compare(r, b, a)
  {
    hide Less, Equal, NoReals, Precedes;
    LessIsPrecedes(r, a, b);
    Trichotomy(r, a, b);
    EqualIsIdentity(r, a, b);
    if Less(r, a, b) && Less(r, b, c) {
      Transitive(r, a, b, c);
    }
  }
}
