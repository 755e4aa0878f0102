/**
 * The chained hash table on values: buckets are sequences of records, head of the chain first.
 * The heap-linked table of HashTable is proved against these functions.
 */
module HashSpec {
  import opened Options

  const PRIMES: seq<nat> := [
    53, 97, 193, 389, 769, 1543, 3079, 6151, 12289, 24593, 49157, 98317, 196613, 393241, 786433,
    1572869, 3145739, 6291469, 12582917, 25165843, 50331653, 100663319, 201326611, 402653189,
    805306457, 1610612741]

  const PRIME_TABLE_LENGTH: nat := 26

  /** ceil(0.65 * size). */
  function LoadLimit(size: nat): nat { (65 * size + 99) / 100 }

  /** One entry: key, value and stored hash. */
  datatype Rec<K, V> = Rec(k: K, v: V, h: nat)

  type Buckets<K, V> = seq<seq<Rec<K, V>>>

  datatype Table<K, V> = Table(buckets: Buckets<K, V>, count: nat, primeIndex: nat)

  // ---------- sequences ----------

  function Reverse<T>(s: seq<T>): (r: seq<T>)
    ensures |r| == |s|
  {
    if s == [] then [] else Reverse(s[1..]) + [s[0]]
  }

  function Filter<T>(s: seq<T>, p: T -> bool): (r: seq<T>)
    ensures |r| <= |s|
  {
    if s == [] then [] else (if p(s[0]) then [s[0]] else []) + Filter(s[1..], p)
  }

  function Flatten<T>(s: seq<seq<T>>): seq<T>
  {
    if s == [] then [] else s[0] + Flatten(s[1..])
  }

  lemma Associative<T>(a: seq<T>, b: seq<T>, c: seq<T>)
    ensures a + (b + c) == a + b + c
  {
  }

  lemma {:induction false} FilterConcat<T>(a: seq<T>, b: seq<T>, p: T -> bool)
    ensures Filter(a + b, p) == Filter(a, p) + Filter(b, p)
  {
    if a == [] {
      assert a + b == b;
    } else {
      FilterConcat(a[1..], b, p);
      assert (a + b)[0] == a[0] && (a + b)[1..] == a[1..] + b;
      Associative(if p(a[0]) then [a[0]] else [], Filter(a[1..], p), Filter(b, p));
    }
  }

  lemma {:induction false} ReverseConcat<T>(a: seq<T>, b: seq<T>)
    ensures Reverse(a + b) == Reverse(b) + Reverse(a)
  {
    if a == [] {
      assert a + b == b;
    } else {
      ReverseConcat(a[1..], b);
      assert (a + b)[0] == a[0] && (a + b)[1..] == a[1..] + b;
      Associative(Reverse(b), Reverse(a[1..]), [a[0]]);
    }
  }

  lemma {:induction false} FilterReverse<T>(s: seq<T>, p: T -> bool)
    ensures Filter(Reverse(s), p) == Reverse(Filter(s, p))
  {
    if s != [] {
      FilterReverse(s[1..], p);
      FilterConcat(Reverse(s[1..]), [s[0]], p);
      var first := if p(s[0]) then [s[0]] else [];
      ReverseConcat(first, Filter(s[1..], p));
      assert Filter([s[0]], p) == first == Reverse(first);
    }
  }

  /** A second filter that is at least as strict makes the first one redundant. */
  lemma {:induction false} FilterTwice<T>(s: seq<T>, p: T -> bool, q: T -> bool)
    requires forall x | x in s && p(x) :: q(x)
    ensures Filter(Filter(s, q), p) == Filter(s, p)
  {
    if s != [] {
      FilterTwice(s[1..], p, q);
      FilterConcat(if q(s[0]) then [s[0]] else [], Filter(s[1..], q), p);
    }
  }

  lemma {:induction false} FilterNothing<T>(s: seq<T>, p: T -> bool)
    requires forall x | x in s :: !p(x)
    ensures Filter(s, p) == []
  {
    if s != [] { FilterNothing(s[1..], p); }
  }

  lemma {:induction false} FlattenConcat<T>(a: seq<seq<T>>, b: seq<seq<T>>)
    ensures Flatten(a + b) == Flatten(a) + Flatten(b)
  {
    if a == [] {
      assert a + b == b;
    } else {
      FlattenConcat(a[1..], b);
      assert (a + b)[0] == a[0] && (a + b)[1..] == a[1..] + b;
      Associative(a[0], Flatten(a[1..]), Flatten(b));
    }
  }

  /** Nothing but empty sequences flattens to nothing. */
  lemma {:induction false} FlattenEmpty<T>(s: seq<seq<T>>)
    requires forall i | 0 <= i < |s| :: s[i] == []
    ensures Flatten(s) == []
  {
    if s != [] { FlattenEmpty(s[1..]); }
  }

  lemma FlattenSnoc<T>(s: seq<seq<T>>, i: nat)
    requires i < |s|
    ensures Flatten(s[..i + 1]) == Flatten(s[..i]) + s[i]
  {
    assert s[..i + 1] == s[..i] + [s[i]] && [s[i]][1..] == [];
    FlattenConcat(s[..i], [s[i]]);
    assert Flatten([s[i]]) == s[i] + Flatten<T>([]) == s[i];
  }

  /** Changing one inner sequence changes the concatenation at one place. */
  lemma FlattenUpdate<T>(s: seq<seq<T>>, i: nat, x: seq<T>)
    requires i < |s|
    ensures Flatten(s) == Flatten(s[..i]) + s[i] + Flatten(s[i + 1..])
    ensures Flatten(s[i := x]) == Flatten(s[..i]) + x + Flatten(s[i + 1..])
  {
    FlattenAt(s, i);
    FlattenAt(s[i := x], i);
    assert s[i := x][..i] == s[..i] && s[i := x][i + 1..] == s[i + 1..];
  }

  lemma FlattenAt<T>(s: seq<seq<T>>, i: nat)
    requires i < |s|
    ensures Flatten(s) == Flatten(s[..i]) + s[i] + Flatten(s[i + 1..])
  {
    assert s == s[..i] + s[i..] && s[i..][1..] == s[i + 1..];
    FlattenConcat(s[..i], s[i..]);
    Associative(Flatten(s[..i]), s[i], Flatten(s[i + 1..]));
  }

  lemma {:induction false} FlattenMembers<T>(s: seq<seq<T>>, x: T)
    ensures x in Flatten(s) <==> exists i :: 0 <= i < |s| && x in s[i]
  {
    if s != [] {
      FlattenMembers(s[1..], x);
      if x in Flatten(s[1..]) {
        var i :| 0 <= i < |s[1..]| && x in s[1..][i];
        assert x in s[i + 1];
      }
      if i :| 0 <= i < |s| && x in s[i] {
        assert i > 0 ==> x in s[1..][i - 1];
      }
    }
  }

  // ---------- operations ----------

  /** Every record is in the bucket of its hash. */
  ghost predicate Placed<K, V>(b: Buckets<K, V>)
  {
    |b| > 0 && forall i, r | 0 <= i < |b| && r in b[i] :: r.h % |b| == i
  }

  function InBucket<K, V>(n: nat, i: nat): Rec<K, V> -> bool
    requires n > 0
  {
    (r: Rec<K, V>) => r.h % n == i
  }

  /** The test at the head of every chain walk. */
  function Hit<K, V>(k: K, h: nat, eq: (K, K) -> bool): Rec<K, V> -> bool
  {
    (r: Rec<K, V>) => h == r.h && eq(k, r.k)
  }

  /**
   * The transfer of all chains into n buckets: walking the old chains in order and pushing every
   * entry on the front of its new chain leaves each new chain in reverse.
   */
  function Rehash<K, V>(b: Buckets<K, V>, n: nat): (r: Buckets<K, V>)
    requires n > 0
    ensures |r| == n
  {
    seq(n, i requires 0 <= i < n => Reverse(Filter(Flatten(b), InBucket(n, i))))
  }

  predicate CanExpand<K, V>(t: Table<K, V>, memory: bool)
  {
    t.primeIndex + 1 < PRIME_TABLE_LENGTH && memory
  }

  /** `hashtable_expand`; `memory` says whether the new array can be had. */
  function Expand<K, V>(t: Table<K, V>, memory: bool): (r: Table<K, V>)
    requires |t.buckets| > 0
    ensures |r.buckets| > 0
  {
    if !CanExpand(t, memory) then t
    else Table(Rehash(t.buckets, PRIMES[t.primeIndex + 1]), t.count, t.primeIndex + 1)
  }

  /** Whether an insertion calls `hashtable_expand`. */
  predicate Crowded<K, V>(t: Table<K, V>) { t.count + 1 > LoadLimit(|t.buckets|) }

  /** The table an insertion puts its entry into. */
  function Prepared<K, V>(t: Table<K, V>, memory: bool): (r: Table<K, V>)
    requires |t.buckets| > 0
    ensures |r.buckets| > 0
  {
    if Crowded(t) then Expand(t, memory) else t
  }

  function Push<K, V>(b: Buckets<K, V>, r: Rec<K, V>): (b': Buckets<K, V>)
    requires |b| > 0
    ensures |b'| == |b|
  {
    b[r.h % |b| := [r] + b[r.h % |b|]]
  }

  /** `hashtable_insert`; `entry` says whether the entry itself can be allocated. */
  function Insert<K, V>(t: Table<K, V>, r: Rec<K, V>, memory: bool, entry: bool): (t': Table<K, V>)
    requires |t.buckets| > 0
    ensures |t'.buckets| > 0
  {
    var p := Prepared(t, memory);
    if entry then p.(buckets := Push(p.buckets, r), count := p.count + 1) else p
  }

  /** The position of the first record of the chain that passes the test; the length if none does. */
  function FirstHit<T>(chain: seq<T>, p: T -> bool): (j: nat)
    ensures j <= |chain|
    ensures j < |chain| ==> p(chain[j])
    ensures forall i | 0 <= i < j :: !p(chain[i])
  {
    if chain == [] || p(chain[0]) then 0 else 1 + FirstHit(chain[1..], p)
  }

  function Without<T>(chain: seq<T>, j: nat): seq<T>
    requires j < |chain|
  {
    chain[..j] + chain[j + 1..]
  }

  function Chain<K, V>(t: Table<K, V>, h: nat): seq<Rec<K, V>>
    requires |t.buckets| > 0
  {
    t.buckets[h % |t.buckets|]
  }

  /** `hashtable_search`. */
  function Search<K, V>(t: Table<K, V>, k: K, h: nat, eq: (K, K) -> bool): Option<V>
    requires |t.buckets| > 0
  {
    var chain := Chain(t, h);
    var j := FirstHit(chain, Hit(k, h, eq));
    if j < |chain| then Some(chain[j].v) else None
  }

  /** `hashtable_remove`. */
  function Remove<K, V>(t: Table<K, V>, k: K, h: nat, eq: (K, K) -> bool): (t': Table<K, V>)
    requires |t.buckets| > 0
    ensures |t'.buckets| == |t.buckets|
  {
    var chain := Chain(t, h);
    var j := FirstHit(chain, Hit(k, h, eq));
    if j < |chain| && t.count > 0 then
      t.(buckets := t.buckets[h % |t.buckets| := Without(chain, j)], count := t.count - 1)
    else t
  }

  // ---------- the invariant ----------

  ghost predicate Inv<K, V>(t: Table<K, V>)
  {
    && t.primeIndex < PRIME_TABLE_LENGTH && |t.buckets| == PRIMES[t.primeIndex]
    && Placed(t.buckets)
    && t.count == |Flatten(t.buckets)|
  }

  lemma RehashPlaced<K, V>(b: Buckets<K, V>, n: nat)
    requires n > 0
    ensures Placed(Rehash(b, n))
  {
    forall i, r: Rec<K, V> | 0 <= i < n && r in Rehash(b, n)[i] ensures r.h % n == i {
      ReverseMembers(Filter(Flatten(b), InBucket(n, i)), r);
      FilterMembers(Flatten(b), InBucket(n, i), r);
    }
  }

  lemma {:induction false} FilterMembers<T>(s: seq<T>, p: T -> bool, x: T)
    ensures x in Filter(s, p) <==> x in s && p(x)
  {
    if s != [] { FilterMembers(s[1..], p, x); }
  }

  lemma {:induction false} ReverseMembers<T>(s: seq<T>, x: T)
    ensures x in Reverse(s) <==> x in s
  {
    if s != [] { ReverseMembers(s[1..], x); }
  }

  // ---------- expansion keeps the entries and reverses every class of equal hash ----------

  /** Under a test that fixes the hash, only one bucket of a placed table contributes. */
  lemma {:induction false} OneBucketMatters<K, V>(b: Buckets<K, V>, h: nat, p: Rec<K, V> -> bool, m: nat)
    requires Placed(b) && m <= |b| && forall r :: p(r) ==> r.h == h
    ensures Filter(Flatten(b[..m]), p) == if h % |b| < m then Filter(b[h % |b|], p) else []
  {
    if m > 0 {
      OneBucketMatters(b, h, p, m - 1);
      FlattenSnoc(b, m - 1);
      FilterConcat(Flatten(b[..m - 1]), b[m - 1], p);
      if h % |b| != m - 1 {
        FilterNothing(b[m - 1], p);
      }
    }
  }

  /** For every hash value, expansion leaves its entries in exactly the reverse of their old order. */
  lemma RehashReverses<K, V>(b: Buckets<K, V>, n: nat, h: nat, p: Rec<K, V> -> bool)
    requires Placed(b) && n > 0 && forall r :: p(r) ==> r.h == h
    ensures Filter(Rehash(b, n)[h % n], p) == Reverse(Filter(b[h % |b|], p))
  {
    var flat := Flatten(b);
    FilterReverse(Filter(flat, InBucket(n, h % n)), p);
    FilterTwice(flat, p, InBucket(n, h % n));
    assert b[..|b|] == b;
    OneBucketMatters(b, h, p, |b|);
  }

  lemma {:induction false} ReverseMultiset<T>(s: seq<T>)
    ensures multiset(Reverse(s)) == multiset(s)
  {
    if s != [] {
      ReverseMultiset(s[1..]);
      assert s == [s[0]] + s[1..];
    }
  }

  /** The bucket of a record in a table of n buckets. */
  function BucketOf<K, V>(r: Rec<K, V>, n: nat): (i: nat)
    requires n > 0
    ensures i < n
  {
    r.h % n
  }

  lemma CountConcat<T>(a: seq<T>, b: seq<T>, x: T)
    ensures multiset(a + b)[x] == multiset(a)[x] + multiset(b)[x]
  {
  }

  /** The number of occurrences of r in one bucket of the new table. */
  lemma BucketCount<K, V>(b: Buckets<K, V>, n: nat, r: Rec<K, V>, i: nat)
    requires i < n
    ensures multiset(Rehash(b, n)[i])[r] == if BucketOf(r, n) == i then multiset(Flatten(b))[r] else 0
  {
    hide Filter, Reverse, Flatten;
    ReverseMultiset(Filter(Flatten(b), InBucket(n, i)));
    FilterCount(Flatten(b), InBucket(n, i), r);
  }

  /** Occurrences in one slot only are all the occurrences. */
  lemma {:induction false} SlotCounts<T>(s: seq<seq<T>>, x: T, slot: nat, total: nat, m: nat)
    requires m <= |s| && forall i | 0 <= i < |s| :: multiset(s[i])[x] == if i == slot then total else 0
    ensures multiset(Flatten(s[..m]))[x] == if slot < m then total else 0
  {
    hide Flatten;
    if m == 0 {
      FlattenEmpty(s[..0]);
    } else {
      SlotCounts(s, x, slot, total, m - 1);
      FlattenSnoc(s, m - 1);
      CountConcat(Flatten(s[..m - 1]), s[m - 1], x);
    }
  }

  /** The number of occurrences of r in the new table. */
  lemma RehashCounts<K, V>(b: Buckets<K, V>, n: nat, r: Rec<K, V>)
    requires n > 0
    ensures multiset(Flatten(Rehash(b, n)))[r] == multiset(Flatten(b))[r]
  {
    hide Rehash, Flatten, BucketOf;
    var c := Rehash(b, n);
    forall i | 0 <= i < n ensures multiset(c[i])[r] == if i == BucketOf(r, n) then multiset(Flatten(b))[r] else 0 {
      BucketCount(b, n, r, i);
    }
    SlotCounts(c, r, BucketOf(r, n), multiset(Flatten(b))[r], n);
    assert c[..n] == c;
  }

  lemma {:induction false} FilterCount<T>(s: seq<T>, p: T -> bool, x: T)
    ensures multiset(Filter(s, p))[x] == if p(x) then multiset(s)[x] else 0
  {
    if s != [] {
      FilterCount(s[1..], p, x);
      assert s == [s[0]] + s[1..];
    }
  }

  /** Expansion preserves the multiset of entries. */
  lemma RehashKeepsEntries<K(!new), V(!new)>(b: Buckets<K, V>, n: nat)
    requires n > 0
    ensures multiset(Flatten(Rehash(b, n))) == multiset(Flatten(b))
    ensures |Flatten(Rehash(b, n))| == |Flatten(b)|
  {
    hide Rehash, Flatten;
    var c := Rehash(b, n);
    forall r: Rec<K, V> ensures multiset(Flatten(c))[r] == multiset(Flatten(b))[r] {
      RehashCounts(b, n, r);
    }
    assert |multiset(Flatten(c))| == |Flatten(c)|;
  }

  lemma ExpandInv<K(!new), V(!new)>(t: Table<K, V>, memory: bool)
    requires Inv(t)
    ensures Inv(Expand(t, memory))
  {
    if CanExpand(t, memory) {
      var n := PRIMES[t.primeIndex + 1];
      RehashPlaced(t.buckets, n);
      RehashKeepsEntries(t.buckets, n);
    }
  }

  lemma InsertInv<K(!new), V(!new)>(t: Table<K, V>, r: Rec<K, V>, memory: bool, entry: bool)
    requires Inv(t)
    ensures Inv(Insert(t, r, memory, entry))
  {
    ExpandInv(t, memory);
    var p := Prepared(t, memory);
    FlattenUpdate(p.buckets, r.h % |p.buckets|, [r] + p.buckets[r.h % |p.buckets|]);
  }

  lemma RemoveInv<K, V>(t: Table<K, V>, k: K, h: nat, eq: (K, K) -> bool)
    requires Inv(t)
    ensures Inv(Remove(t, k, h, eq))
  {
    var i, chain := h % |t.buckets|, Chain(t, h);
    var j := FirstHit(chain, Hit(k, h, eq));
    if j < |chain| {
      FlattenUpdate(t.buckets, i, Without(chain, j));
    }
  }

  /** A record in the table is counted, so a removal never meets a zero count. */
  lemma HitIsCounted<K, V>(t: Table<K, V>, h: nat)
    requires Inv(t) && Chain(t, h) != []
    ensures t.count > 0
  {
    FlattenAt(t.buckets, h % |t.buckets|);
  }
}
