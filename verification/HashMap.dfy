/** The hash table used as its documentation advises, "remove before insert": an ordinary map. */
module HashMap {
  import opened Options
  import opened HashSpec
  import opened HashRuns

  /** No key has more than one value. */
  ghost predicate Unique<K(!new), V>(t: Table<K, V>, env: Env<K>)
    requires |t.buckets| > 0
  {
    forall q :: |Stack(t, q, env)| <= 1
  }

  function Lookup<K, V>(t: Table<K, V>, q: K, env: Env<K>): Option<V>
    requires |t.buckets| > 0
  {
    Search(t, q, env.hash(q), env.eq)
  }

  /** Removing a key and then inserting it; `entry` says whether the new entry can be allocated. */
  function Replace<K, V>(t: Table<K, V>, k: K, v: V, memory: bool, entry: bool, env: Env<K>): Table<K, V>
    requires |t.buckets| > 0
  {
    Apply(Apply(t, RemoveOp(k), env), InsertOp(k, v, memory, entry), env)
  }

  /** What is under the key afterwards. */
  function Written<V>(v: V, entry: bool): Option<V> { if entry then Some(v) else None }

  lemma ShortReverse<T>(s: seq<T>)
    requires |s| <= 1
    ensures Reverse(s) == s
  {
  }

  /** With "remove before insert", insertion is map update, whether or not the table grows;
      a failed one leaves the key removed. */
  lemma ReplaceIsUpdate<K(!new), V(!new)>(t: Table<K, V>, k: K, v: V, memory: bool, entry: bool, env: Env<K>)
    requires Lawful(env) && Sound(t, env) && Unique(t, env)
    ensures var t' := Replace(t, k, v, memory, entry, env);
            && Sound(t', env) && Unique(t', env)
            && forall q :: Lookup(t', q, env) == if env.eq(q, k) then Written(v, entry) else Lookup(t, q, env)
  {
    assert |t.buckets| > 0;
    hide Sound, Unique, Apply, Lookup, Written, Lawful;
    var mid := Apply(t, RemoveOp(k), env);
    var op := InsertOp(k, v, memory, entry);
    var t' := Apply(mid, op, env);
    ApplySound(t, RemoveOp(k), env);
    ApplySound(mid, op, env);
    forall q ensures |Stack(t', q, env)| <= 1
             ensures Lookup(t', q, env) == if env.eq(q, k) then Written(v, entry) else Lookup(t, q, env)
    {
      ReplaceUnder(t, k, v, memory, entry, q, env);
    }
    AllShort(t', env);
  }

  lemma AllShort<K(!new), V>(t: Table<K, V>, env: Env<K>)
    requires |t.buckets| > 0 && forall q :: |Stack(t, q, env)| <= 1
    ensures Unique(t, env)
  {
  }

  /** What is under one key after the replacement of another. */
  lemma ReplaceUnder<K(!new), V(!new)>(t: Table<K, V>, k: K, v: V, memory: bool, entry: bool, q: K, env: Env<K>)
    requires Lawful(env) && Sound(t, env) && Unique(t, env)
    ensures var t' := Replace(t, k, v, memory, entry, env);
            && |Stack(t', q, env)| <= 1
            && Lookup(t', q, env) == if env.eq(q, k) then Written(v, entry) else Lookup(t, q, env)
  {
    assert |Stack(t, q, env)| <= 1;
    hide Sound, Unique, Stack, Apply, Search, Expands, Lawful;
    var mid := Apply(t, RemoveOp(k), env);
    StepRefines(t, RemoveOp(k), q, env);
    StepRefines(mid, InsertOp(k, v, memory, entry), q, env);
    ShortReverse(Stack(mid, q, env));
    SearchPeeks(t, q, env);
    SearchPeeks(Replace(t, k, v, memory, entry, env), q, env);
  }

  lemma RemoveIsDelete<K(!new), V(!new)>(t: Table<K, V>, k: K, env: Env<K>)
    requires Lawful(env) && Sound(t, env) && Unique(t, env)
    ensures var t' := Apply(t, RemoveOp(k), env);
            && Sound(t', env) && Unique(t', env)
            && forall q :: Lookup(t', q, env) == if env.eq(q, k) then None else Lookup(t, q, env)
  {
    assert |t.buckets| > 0;
    hide Inv, Stack, Apply, Search;
    var t' := Apply(t, RemoveOp(k), env);
    StepRefines(t, RemoveOp(k), k, env);
    forall q ensures |Stack(t', q, env)| <= 1
             ensures Lookup(t', q, env) == if env.eq(q, k) then None else Lookup(t, q, env)
    {
      StepRefines(t, RemoveOp(k), q, env);
      SearchPeeks(t, q, env);
      SearchPeeks(t', q, env);
    }
  }

  /** The stored keys. */
  ghost function Keys<K, V>(t: Table<K, V>): set<K> { set r | r in Flatten(t.buckets) :: r.k }

  lemma {:induction false} TwoHits<T>(s: seq<T>, p: T -> bool, i: nat, j: nat)
    requires i < j < |s| && p(s[i]) && p(s[j])
    ensures |Filter(s, p)| >= 2
  {
    if i == 0 {
      FilterMembers(s[1..], p, s[j]);
      assert s[1..][j - 1] == s[j];
    } else {
      TwoHits(s[1..], p, i - 1, j - 1);
    }
  }

  /** In a table without repeated keys, entries at different places have inequivalent keys. */
  lemma UniqueKeys<K(!new), V(!new)>(t: Table<K, V>, env: Env<K>, i: nat, j: nat)
    requires Lawful(env) && Sound(t, env) && Unique(t, env)
    requires i < j < |Flatten(t.buckets)|
    ensures !env.eq(Flatten(t.buckets)[i].k, Flatten(t.buckets)[j].k)
  {
    var flat := Flatten(t.buckets);
    var q := flat[i].k;
    if env.eq(q, flat[j].k) {
      FlatHashed(t, env, flat[i]);
      FlatHashed(t, env, flat[j]);
      assert t.buckets[..|t.buckets|] == t.buckets;
      OneBucketMatters(t.buckets, env.hash(q), KeyHit(q, env), |t.buckets|);
      assert |Stack(t, q, env)| <= 1;
      TwoHits(flat, KeyHit(q, env), i, j);
    }
  }

  lemma FlatHashed<K, V>(t: Table<K, V>, env: Env<K>, r: Rec<K, V>)
    requires Sound(t, env) && r in Flatten(t.buckets)
    ensures r.h == env.hash(r.k)
  {
    FlattenMembers(t.buckets, r);
  }

  lemma {:induction false} DistinctKeys<K, V>(s: seq<Rec<K, V>>)
    requires forall i, j | 0 <= i < j < |s| :: s[i].k != s[j].k
    ensures |(set r | r in s :: r.k)| == |s|
  {
    if s != [] {
      DistinctKeys(s[1..]);
      var rest := set r | r in s[1..] :: r.k;
      assert s[0].k !in rest;
      assert (set r | r in s :: r.k) == {s[0].k} + rest;
    }
  }

  /** `hashtable_count` is then the number of keys, and a key is found exactly when an equivalent one is stored. */
  lemma CountIsSize<K(!new), V(!new)>(t: Table<K, V>, env: Env<K>)
    requires Lawful(env) && Sound(t, env) && Unique(t, env)
    ensures t.count == |Keys(t)|
    ensures forall a, b | a in Keys(t) && b in Keys(t) && env.eq(a, b) :: a == b
    ensures forall q :: Lookup(t, q, env) != None <==> exists k :: k in Keys(t) && env.eq(q, k)
  {
    var flat := Flatten(t.buckets);
    forall i, j | 0 <= i < j < |flat| ensures !env.eq(flat[i].k, flat[j].k) && flat[i].k != flat[j].k {
      UniqueKeys(t, env, i, j);
    }
    DistinctKeys(flat);
    forall a, b | a in Keys(t) && b in Keys(t) && env.eq(a, b) ensures a == b {
      KeysAgree(t, env, a, b);
    }
    forall q ensures Lookup(t, q, env) != None <==> exists k :: k in Keys(t) && env.eq(q, k) {
      FoundIffStored(t, q, env);
    }
  }

  lemma KeysAgree<K(!new), V(!new)>(t: Table<K, V>, env: Env<K>, a: K, b: K)
    requires Lawful(env) && Sound(t, env) && Unique(t, env)
    requires a in Keys(t) && b in Keys(t) && env.eq(a, b)
    ensures a == b
  {
    var flat := Flatten(t.buckets);
    var i :| 0 <= i < |flat| && flat[i].k == a;
    var j :| 0 <= j < |flat| && flat[j].k == b;
    if i < j {
      UniqueKeys(t, env, i, j);
    } else if j < i {
      UniqueKeys(t, env, j, i);
    }
  }

  lemma FoundIffStored<K(!new), V(!new)>(t: Table<K, V>, q: K, env: Env<K>)
    requires Lawful(env) && Sound(t, env)
    ensures Lookup(t, q, env) != None <==> exists k :: k in Keys(t) && env.eq(q, k)
  {
    SearchPeeks(t, q, env);
    var p: Rec<K, V> -> bool := KeyHit(q, env);
    assert t.buckets[..|t.buckets|] == t.buckets;
    OneBucketMatters(t.buckets, env.hash(q), p, |t.buckets|);
    var flat := Flatten(t.buckets);
    if Stack(t, q, env) != [] {
      var r := Filter(flat, p)[0];
      FilterMembers(flat, p, r);
      assert r.k in Keys(t);
    }
    if k :| k in Keys(t) && env.eq(q, k) {
      var r :| r in flat && r.k == k;
      FlatHashed(t, env, r);
      FilterMembers(flat, p, r);
    }
  }

  // ---------- runs ----------

  /** An assignment, made by removing the key and inserting it again, or a deletion. */
  datatype MapOp<K, V> = Assign(k: K, v: V, memory: bool, entry: bool) | Delete(k: K)

  /** The calls a sequence of map operations makes. */
  function CallsOf<K, V>(ms: seq<MapOp<K, V>>): seq<Op<K, V>>
  {
    if ms == [] then []
    else
      match ms[0]
      case Assign(k, v, memory, entry) => [RemoveOp(k), InsertOp(k, v, memory, entry)] + CallsOf(ms[1..])
      case Delete(k) => [RemoveOp(k)] + CallsOf(ms[1..])
  }

  /** What a map that answers `before` for q answers after one operation. */
  function Answer<K, V>(before: Option<V>, m: MapOp<K, V>, q: K, env: Env<K>): Option<V>
  {
    if !env.eq(q, m.k) then before
    else
      match m
      case Assign(_, v, _, entry) => Written(v, entry)
      case Delete(_) => None
  }

  /** What it answers after a run. */
  function AnswerAfter<K, V>(before: Option<V>, ms: seq<MapOp<K, V>>, q: K, env: Env<K>): Option<V>
    decreases |ms|
  {
    if ms == [] then before else AnswerAfter(Answer(before, ms[0], q, env), ms[1..], q, env)
  }

  /** The table after one map operation. */
  function After<K, V>(t: Table<K, V>, m: MapOp<K, V>, env: Env<K>): (t': Table<K, V>)
    requires |t.buckets| > 0
    ensures |t'.buckets| > 0
  {
    match m
    case Assign(k, v, memory, entry) => Replace(t, k, v, memory, entry, env)
    case Delete(k) => Apply(t, RemoveOp(k), env)
  }

  lemma CallsStep<K, V>(t: Table<K, V>, ms: seq<MapOp<K, V>>, env: Env<K>)
    requires |t.buckets| > 0 && ms != []
    ensures Run(t, CallsOf(ms), env) == Run(After(t, ms[0], env), CallsOf(ms[1..]), env)
  {
    hide Apply;
    var rest := CallsOf(ms[1..]);
    match ms[0]
    case Assign(k, v, memory, entry) =>
      var insert := InsertOp(k, v, memory, entry);
      assert ([RemoveOp(k), insert] + rest)[1..] == [insert] + rest && ([insert] + rest)[1..] == rest;
    case Delete(k) =>
      assert ([RemoveOp(k)] + rest)[1..] == rest;
  }

  lemma MapStep<K(!new), V(!new)>(t: Table<K, V>, m: MapOp<K, V>, env: Env<K>)
    requires Lawful(env) && Sound(t, env) && Unique(t, env)
    ensures var t' := After(t, m, env);
            && Sound(t', env) && Unique(t', env)
            && forall q :: Lookup(t', q, env) == Answer(Lookup(t, q, env), m, q, env)
  {
    assert |t.buckets| > 0;
    hide Sound, Unique, Lookup, Replace, Apply, Lawful;
    match m
    case Assign(k, v, memory, entry) => ReplaceIsUpdate(t, k, v, memory, entry, env);
    case Delete(k) => RemoveIsDelete(t, k, env);
  }

  /** Over every run of assignments and deletions the table stays without repeated keys and answers as a map. */
  lemma {:induction false} MapRunRefines<K(!new), V(!new)>(t: Table<K, V>, ms: seq<MapOp<K, V>>, env: Env<K>)
    requires Lawful(env) && Sound(t, env) && Unique(t, env)
    ensures var t' := Run(t, CallsOf(ms), env);
            && Sound(t', env) && Unique(t', env)
            && forall q :: Lookup(t', q, env) == AnswerAfter(Lookup(t, q, env), ms, q, env)
    decreases |ms|
  {
    assert |t.buckets| > 0;
    hide Sound, Unique, Lookup, Apply, Lawful, After, Answer;
    if ms != [] {
      CallsStep(t, ms, env);
      MapStep(t, ms[0], env);
      MapRunRefines(After(t, ms[0], env), ms[1..], env);
    }
  }

  /** A created table holds nothing under any key. */
  lemma CreatedIsEmpty<K(!new), V(!new)>(primeIndex: nat, env: Env<K>)
    requires primeIndex < PRIME_TABLE_LENGTH
    ensures var t := Created<K, V>(primeIndex); Unique(t, env) && forall q :: Lookup(t, q, env) == None
  {
    var t := Created<K, V>(primeIndex);
    forall q: K ensures Stack(t, q, env) == [] {
    }
    forall q ensures Lookup(t, q, env) == None {
      SearchPeeks(t, q, env);
    }
  }

  /**
   * Used this way from its creation on, a table is an ordinary map at every moment: it answers what
   * was last assigned, `hashtable_count` is the number of keys, and a key is found exactly when an
   * equivalent one is stored.
   */
  lemma CreatedIsMap<K(!new), V(!new)>(primeIndex: nat, ms: seq<MapOp<K, V>>, env: Env<K>)
    requires primeIndex < PRIME_TABLE_LENGTH && Lawful(env)
    ensures var t' := Run(Created<K, V>(primeIndex), CallsOf(ms), env);
            && (forall q :: Lookup(t', q, env) == AnswerAfter(None, ms, q, env))
            && t'.count == |Keys(t')|
            && (forall q :: AnswerAfter(None, ms, q, env) != None <==> exists k :: k in Keys(t') && env.eq(q, k))
  {
    var t := Created<K, V>(primeIndex);
    CreatedSound<K, V>(primeIndex, env);
    CreatedIsEmpty<K, V>(primeIndex, env);
    var t' := Run(t, CallsOf(ms), env);
    hide Run, CallsOf, Sound, Unique, Lookup, Keys, Lawful;
    MapRunRefines(t, ms, env);
    CountIsSize(t', env);
  }
}
