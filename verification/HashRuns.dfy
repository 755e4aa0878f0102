/** Whole runs of the hash table: a map from keys to stacks of values. */
module HashRuns {
  import opened Options
  import opened HashSpec

  /** The functions a table is created with, `hash` including the mixing of `hash()`. */
  datatype Env<!K> = Env(hash: K -> nat, eq: (K, K) -> bool)

  /** Key equality is an equivalence that the hash respects. */
  ghost predicate Lawful<K(!new)>(env: Env<K>)
  {
    && (forall a :: env.eq(a, a))
    && (forall a, b :: env.eq(a, b) ==> env.eq(b, a) && env.hash(a) == env.hash(b))
    && (forall a, b, c :: env.eq(a, b) && env.eq(b, c) ==> env.eq(a, c))
  }

  ghost predicate Hashed<K, V>(b: Buckets<K, V>, env: Env<K>)
  {
    forall i, r | 0 <= i < |b| && r in b[i] :: r.h == env.hash(r.k)
  }

  ghost predicate Sound<K, V>(t: Table<K, V>, env: Env<K>) { Inv(t) && Hashed(t.buckets, env) }

  function Values<K, V>(s: seq<Rec<K, V>>): (r: seq<V>)
    ensures |r| == |s|
  {
    seq(|s|, i requires 0 <= i < |s| => s[i].v)
  }

  function KeyHit<K, V>(q: K, env: Env<K>): Rec<K, V> -> bool { Hit(q, env.hash(q), env.eq) }

  /** The records under a key, in chain order. */
  function Records<K, V>(t: Table<K, V>, q: K, env: Env<K>): seq<Rec<K, V>>
    requires |t.buckets| > 0
  {
    Filter(Chain(t, env.hash(q)), KeyHit(q, env))
  }

  /** The stack of values under a key. */
  function Stack<K, V>(t: Table<K, V>, q: K, env: Env<K>): seq<V>
    requires |t.buckets| > 0
  {
    Values(Records(t, q, env))
  }

  // ---------- one operation ----------

  datatype Op<K, V> =
    | InsertOp(k: K, v: V, memory: bool, entry: bool)
    | RemoveOp(k: K)
    | SearchOp(k: K)

  function Apply<K, V>(t: Table<K, V>, op: Op<K, V>, env: Env<K>): (t': Table<K, V>)
    requires |t.buckets| > 0
    ensures |t'.buckets| > 0
  {
    match op
    case InsertOp(k, v, memory, entry) => Insert(t, Rec(k, v, env.hash(k)), memory, entry)
    case RemoveOp(k) => Remove(t, k, env.hash(k), env.eq)
    case SearchOp(_) => t
  }

  predicate Expands<K, V>(t: Table<K, V>, op: Op<K, V>)
  {
    op.InsertOp? && Crowded(t) && CanExpand(t, op.memory)
  }

  /** What an operation does to the stack of the key q: push, pop, or nothing; an expansion reverses it. */
  function StackAfter<K, V>(stack: seq<V>, op: Op<K, V>, expands: bool, q: K, env: Env<K>): seq<V>
  {
    match op
    case InsertOp(k, v, _, entry) =>
      var base := if expands then Reverse(stack) else stack;
      if entry && env.eq(q, k) then [v] + base else base
    case RemoveOp(k) => if env.eq(q, k) && stack != [] then stack[1..] else stack
    case SearchOp(_) => stack
  }

  lemma {:induction false} ValuesReverse<K, V>(s: seq<Rec<K, V>>)
    ensures Values(Reverse(s)) == Reverse(Values(s))
  {
    if s != [] {
      ValuesReverse(s[1..]);
      assert Values(s)[1..] == Values(s[1..]);
      assert Values(Reverse(s[1..]) + [s[0]]) == Values(Reverse(s[1..])) + [s[0].v];
    }
  }

  lemma ExpandHashed<K, V>(t: Table<K, V>, memory: bool, env: Env<K>)
    requires |t.buckets| > 0 && Hashed(t.buckets, env)
    ensures Hashed(Expand(t, memory).buckets, env)
  {
    if CanExpand(t, memory) {
      var n := PRIMES[t.primeIndex + 1];
      var b := Rehash(t.buckets, n);
      forall i, r: Rec<K, V> | 0 <= i < n && r in b[i] ensures r.h == env.hash(r.k) {
        ReverseMembers(Filter(Flatten(t.buckets), InBucket(n, i)), r);
        FilterMembers(Flatten(t.buckets), InBucket(n, i), r);
        FlattenMembers(t.buckets, r);
      }
    }
  }

  lemma ExpandReverses<K(!new), V(!new)>(t: Table<K, V>, memory: bool, q: K, env: Env<K>)
    requires Inv(t)
    ensures Stack(Expand(t, memory), q, env)
         == if CanExpand(t, memory) then Reverse(Stack(t, q, env)) else Stack(t, q, env)
  {
    ExpandInv(t, memory);
    if CanExpand(t, memory) {
      RehashReverses(t.buckets, PRIMES[t.primeIndex + 1], env.hash(q), KeyHit(q, env));
      ValuesReverse(Records(t, q, env));
    }
  }

  /** A pushed record is on top of the stack of its key and on no other stack. */
  lemma PushStacks<K(!new), V>(t: Table<K, V>, k: K, v: V, count: nat, q: K, env: Env<K>)
    requires Lawful(env) && |t.buckets| > 0
    ensures var t' := t.(buckets := Push(t.buckets, Rec(k, v, env.hash(k))), count := count);
            Stack(t', q, env) == if env.eq(q, k) then [v] + Stack(t, q, env) else Stack(t, q, env)
  {
    var r := Rec(k, v, env.hash(k));
    var t' := t.(buckets := Push(t.buckets, r), count := count);
    var chain := Chain(t, env.hash(q));
    if env.hash(q) % |t.buckets| == r.h % |t.buckets| {
      assert Chain(t', env.hash(q)) == [r] + chain && ([r] + chain)[1..] == chain;
      if env.eq(q, k) {
        assert Records(t', q, env) == [r] + Records(t, q, env);
      } else {
        assert Records(t', q, env) == Records(t, q, env);
      }
    }
  }

  /** Taking out the first hit of one key filters as if the filtered sequence had lost its head. */
  lemma {:induction false} FilterWithoutFirst<T>(chain: seq<T>, p: T -> bool, q: T -> bool)
    requires FirstHit(chain, p) < |chain|
    ensures var rest := Without(chain, FirstHit(chain, p));
            && ((forall x | x in chain :: p(x) <==> q(x)) ==>
                  Filter(chain, q) != [] && Filter(rest, q) == Filter(chain, q)[1..])
            && ((forall x | x in chain :: !(p(x) && q(x))) ==> Filter(rest, q) == Filter(chain, q))
  {
    var j := FirstHit(chain, p);
    assert chain[0] in chain && Filter(chain, q) == (if q(chain[0]) then [chain[0]] else []) + Filter(chain[1..], q);
    if p(chain[0]) {
      assert Without(chain, j) == chain[1..];
    } else {
      assert j == 1 + FirstHit(chain[1..], p);
      WithoutLater(chain, j, q);
      hide Without, Filter, FirstHit;
      FilterWithoutFirst(chain[1..], p, q);
    }
  }

  lemma WithoutLater<T>(chain: seq<T>, j: nat, q: T -> bool)
    requires 0 < j < |chain|
    ensures Filter(Without(chain, j), q)
         == (if q(chain[0]) then [chain[0]] else []) + Filter(Without(chain[1..], j - 1), q)
  {
    assert Without(chain, j) == [chain[0]] + Without(chain[1..], j - 1);
    assert Without(chain, j)[1..] == Without(chain[1..], j - 1);
  }

  lemma {:induction false} NoHitNoRecords<T>(chain: seq<T>, p: T -> bool)
    ensures FirstHit(chain, p) == |chain| <==> Filter(chain, p) == []
    ensures Filter(chain, p) != [] ==> Filter(chain, p)[0] == chain[FirstHit(chain, p)]
  {
    if chain != [] { NoHitNoRecords(chain[1..], p); }
  }

  /** Equivalent keys hit the same records of a chain, others no record in common. */
  lemma HitsAgree<K(!new), V>(t: Table<K, V>, k: K, q: K, env: Env<K>)
    requires Lawful(env) && |t.buckets| > 0 && Hashed(t.buckets, env)
    ensures var chain := Chain(t, env.hash(k));
            var p: Rec<K, V> -> bool, p': Rec<K, V> -> bool := KeyHit(k, env), KeyHit(q, env);
            && (env.eq(q, k) ==> env.hash(q) == env.hash(k) && forall r | r in chain :: p(r) <==> p'(r))
            && (!env.eq(q, k) ==> forall r | r in chain :: !(p(r) && p'(r)))
  {
    assert forall r | r in Chain(t, env.hash(k)) :: r.h == env.hash(r.k);
  }

  lemma RemoveStacks<K(!new), V>(t: Table<K, V>, k: K, q: K, env: Env<K>)
    requires Lawful(env) && Sound(t, env)
    ensures Stack(Remove(t, k, env.hash(k), env.eq), q, env)
         == if env.eq(q, k) && Stack(t, q, env) != [] then Stack(t, q, env)[1..] else Stack(t, q, env)
  {
    var h := env.hash(k);
    var p: Rec<K, V> -> bool, p': Rec<K, V> -> bool := KeyHit(k, env), KeyHit(q, env);
    var chain := Chain(t, h);
    HitsAgree(t, k, q, env);
    NoHitNoRecords(chain, p);
    hide Lawful, Hashed, KeyHit;
    if env.eq(q, k) {
      NoHitNoRecords(chain, p');
      assert Filter(chain, p') == Records(t, q, env);
    }
    if FirstHit(chain, p) < |chain| {
      HitIsCounted(t, h);
      FilterWithoutFirst(chain, p, p');
    }
  }

  lemma InsertStacks<K(!new), V(!new)>(t: Table<K, V>, k: K, v: V, memory: bool, entry: bool, q: K, env: Env<K>)
    requires Lawful(env) && Inv(t)
    ensures Stack(Insert(t, Rec(k, v, env.hash(k)), memory, entry), q, env)
         == StackAfter(Stack(t, q, env), InsertOp(k, v, memory, entry), Crowded(t) && CanExpand(t, memory), q, env)
  {
    assert |t.buckets| > 0;
    hide Inv, Expand, CanExpand, Crowded, Push, Lawful, Stack;
    ExpandReverses(t, memory, q, env);
    var p := Prepared(t, memory);
    PushStacks(p, k, v, p.count + 1, q, env);
  }

  lemma ApplySound<K(!new), V(!new)>(t: Table<K, V>, op: Op<K, V>, env: Env<K>)
    requires Sound(t, env)
    ensures Sound(Apply(t, op, env), env)
  {
    match op
    case InsertOp(k, v, memory, entry) =>
      InsertInv(t, Rec(k, v, env.hash(k)), memory, entry);
      ExpandHashed(t, memory, env);
    case RemoveOp(k) =>
      RemoveInv(t, k, env.hash(k), env.eq);
    case SearchOp(_) =>
  }

  /**
   * One step: the table stays sound and the stack of every key changes as the abstract operation
   * says.
   */
  lemma StepRefines<K(!new), V(!new)>(t: Table<K, V>, op: Op<K, V>, q: K, env: Env<K>)
    requires Lawful(env) && Sound(t, env)
    ensures Sound(Apply(t, op, env), env)
    ensures Stack(Apply(t, op, env), q, env) == StackAfter(Stack(t, q, env), op, Expands(t, op), q, env)
  {
    hide Stack, Insert, Remove, Crowded, CanExpand, Inv;
    ApplySound(t, op, env);
    match op
    case InsertOp(k, v, memory, entry) => InsertStacks(t, k, v, memory, entry, q, env);
    case RemoveOp(k) => RemoveStacks(t, k, q, env);
    case SearchOp(_) =>
  }

  lemma SearchPeeks<K(!new), V>(t: Table<K, V>, q: K, env: Env<K>)
    requires |t.buckets| > 0
    ensures Search(t, q, env.hash(q), env.eq)
         == if Stack(t, q, env) == [] then None else Some(Stack(t, q, env)[0])
  {
    NoHitNoRecords(Chain(t, env.hash(q)), KeyHit(q, env));
  }

  // ---------- runs ----------

  function Run<K, V>(t: Table<K, V>, ops: seq<Op<K, V>>, env: Env<K>): (t': Table<K, V>)
    requires |t.buckets| > 0
    ensures |t'.buckets| > 0
    decreases |ops|
  {
    if ops == [] then t else Run(Apply(t, ops[0], env), ops[1..], env)
  }

  /** For each operation of a run, whether it expanded the table. */
  function Expansions<K, V>(t: Table<K, V>, ops: seq<Op<K, V>>, env: Env<K>): (r: seq<bool>)
    requires |t.buckets| > 0
    ensures |r| == |ops|
    decreases |ops|
  {
    if ops == [] then []
    else [Expands(t, ops[0])] + Expansions(Apply(t, ops[0], env), ops[1..], env)
  }

  /** The stack of q after a run of abstract operations. */
  function StackRun<K, V>(stack: seq<V>, ops: seq<Op<K, V>>, expansions: seq<bool>, q: K, env: Env<K>): seq<V>
    requires |expansions| == |ops|
    decreases |ops|
  {
    if ops == [] then stack
    else StackRun(StackAfter(stack, ops[0], expansions[0], q, env), ops[1..], expansions[1..], q, env)
  }

  /** Over every run the table refines a map from keys to stacks of values. */
  lemma {:induction false} RunRefines<K(!new), V(!new)>(t: Table<K, V>, ops: seq<Op<K, V>>, q: K, env: Env<K>)
    requires Lawful(env) && Sound(t, env)
    ensures var t' := Run(t, ops, env);
            && Sound(t', env)
            && Stack(t', q, env) == StackRun(Stack(t, q, env), ops, Expansions(t, ops, env), q, env)
            && Search(t', q, env.hash(q), env.eq)
                  == (if Stack(t', q, env) == [] then None else Some(Stack(t', q, env)[0]))
    decreases |ops|
  {
    assert |t.buckets| > 0;
    hide Sound, Apply, Expands, Stack, StackAfter, Search;
    SearchPeeks(Run(t, ops, env), q, env);
    if ops != [] {
      StepRefines(t, ops[0], q, env);
      RunRefines(Apply(t, ops[0], env), ops[1..], q, env);
      assert Expansions(t, ops, env)[1..] == Expansions(Apply(t, ops[0], env), ops[1..], env);
    }
  }

  // ---------- the empty table ----------

  /** A freshly created table. */
  function Created<K, V>(primeIndex: nat): Table<K, V>
    requires primeIndex < PRIME_TABLE_LENGTH
  {
    Table(seq(PRIMES[primeIndex], _ => []), 0, primeIndex)
  }

  lemma CreatedSound<K, V>(primeIndex: nat, env: Env<K>)
    requires primeIndex < PRIME_TABLE_LENGTH
    ensures Sound(Created<K, V>(primeIndex), env)
  {
    FlattenEmpty(Created<K, V>(primeIndex).buckets);
  }
}
