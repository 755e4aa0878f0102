/** How a table grows over a run in which no allocation fails. */
module HashGrowth {
  import opened HashSpec
  import opened HashRuns

  /** The load limit is the least count that is not below 0.65 of the size. */
  lemma LimitIsCeiling(size: nat, count: nat)
    ensures count >= LoadLimit(size) <==> 100 * count >= 65 * size
  {
  }

  /** Each size is odd and nearly double the one before it. */
  lemma SizesDouble(i: nat)
    requires i < PRIME_TABLE_LENGTH
    ensures PRIMES[i] % 2 == 1
    ensures i > 0 ==> 2 * PRIMES[i - 1] < PRIMES[i] + 200 && PRIMES[i] < 2 * PRIMES[i - 1] + 100
  {
  }

  /** The load limits of the primes from `from` up to but not including `upTo`. */
  function LimitSum(from: nat, upTo: nat): nat
    requires upTo <= PRIME_TABLE_LENGTH
  {
    if upTo <= from then 0 else LimitSum(from, upTo - 1) + LoadLimit(PRIMES[upTo - 1])
  }

  /** Every prime is large enough against its predecessor for its load limit to grow by half. */
  lemma LimitsGrow(j: nat)
    requires 0 < j < PRIME_TABLE_LENGTH
    ensures 3 * LoadLimit(PRIMES[j - 1]) <= 2 * LoadLimit(PRIMES[j])
  {
  }

  lemma LimitsArePositive(j: nat)
    requires j < PRIME_TABLE_LENGTH
    ensures LoadLimit(PRIMES[j]) >= 2
  {
  }

  lemma {:induction false} LimitSumBound(from: nat, upTo: nat)
    requires 0 < upTo <= PRIME_TABLE_LENGTH
    ensures LimitSum(from, upTo) <= 3 * LoadLimit(PRIMES[upTo - 1])
  {
    if from + 1 < upTo {
      LimitSumBound(from, upTo - 1);
      LimitsGrow(upTo - 1);
    }
  }

  /** An operation none of whose allocations fails. */
  predicate Allocates<K, V>(op: Op<K, V>) { op.InsertOp? ==> op.memory && op.entry }

  ghost predicate AllAllocate<K, V>(ops: seq<Op<K, V>>) { forall op | op in ops :: Allocates(op) }

  function Inserts<K, V>(ops: seq<Op<K, V>>): nat
  {
    if ops == [] then 0 else (if ops[0].InsertOp? then 1 else 0) + Inserts(ops[1..])
  }

  /** The entries relinked by all expansions of a run. */
  function Relinked<K, V>(t: Table<K, V>, ops: seq<Op<K, V>>, env: Env<K>): nat
    requires |t.buckets| > 0
    decreases |ops|
  {
    if ops == [] then 0
    else (if Expands(t, ops[0]) then t.count else 0) + Relinked(Apply(t, ops[0], env), ops[1..], env)
  }

  /** Below the last prime the table is never over its load limit. */
  predicate WithinLimit<K, V>(t: Table<K, V>)
    requires t.primeIndex < PRIME_TABLE_LENGTH
  {
    t.primeIndex + 1 < PRIME_TABLE_LENGTH ==> t.count <= LoadLimit(PRIMES[t.primeIndex])
  }

  /**
   * The accounts after `inserted` insertions and `moved` relinkings, for a table created with the
   * prime `from`.
   */
  predicate Accounts<K, V>(t: Table<K, V>, from: nat, inserted: nat, moved: nat)
    requires t.primeIndex < PRIME_TABLE_LENGTH
  {
    && from <= t.primeIndex
    && t.count <= inserted
    && moved <= LimitSum(from, t.primeIndex)
    && (from < t.primeIndex ==> inserted > LoadLimit(PRIMES[t.primeIndex - 1]))
  }

  /** What one operation does to the size of the table and to its count. */
  lemma ApplyShape<K, V>(t: Table<K, V>, op: Op<K, V>, env: Env<K>)
    requires |t.buckets| > 0 && Allocates(op)
    ensures var t' := Apply(t, op, env);
            && t'.primeIndex == t.primeIndex + (if Expands(t, op) then 1 else 0)
            && (if op.InsertOp? then t'.count == t.count + 1 else t'.count <= t.count)
  {
    hide Rehash, Push, FirstHit, LoadLimit;
  }

  /** The table is over its limit, or would be with one entry more, when an insertion expands it. */
  lemma ExpandsWhen<K, V>(t: Table<K, V>, op: Op<K, V>)
    requires Inv(t) && Allocates(op) && op.InsertOp?
    ensures Expands(t, op) <==> t.primeIndex + 1 < PRIME_TABLE_LENGTH && t.count + 1 > LoadLimit(PRIMES[t.primeIndex])
  {
    hide Placed, Flatten, LoadLimit;
  }

  lemma InvPrime<K, V>(t: Table<K, V>)
    requires Inv(t)
    ensures t.primeIndex < PRIME_TABLE_LENGTH && |t.buckets| > 0
  {
    hide Placed, Flatten;
  }

  lemma StepAccounts<K(!new), V(!new)>(t: Table<K, V>, op: Op<K, V>, env: Env<K>, from: nat, inserted: nat, moved: nat)
    requires Inv(t) && Allocates(op) && WithinLimit(t) && Accounts(t, from, inserted, moved)
    ensures var t' := Apply(t, op, env);
            && t'.primeIndex < PRIME_TABLE_LENGTH && WithinLimit(t')
            && Accounts(t', from, inserted + (if op.InsertOp? then 1 else 0),
                        moved + if Expands(t, op) then t.count else 0)
  {
    InvPrime(t);
    ApplyShape(t, op, env);
    if op.InsertOp? {
      ExpandsWhen(t, op);
    }
    LimitsArePositive(t.primeIndex);
    if Expands(t, op) {
      LimitsGrow(t.primeIndex + 1);
    }
    hide LoadLimit, Inv, Apply, Expands;
  }

  lemma FirstOp<K, V>(t: Table<K, V>, ops: seq<Op<K, V>>, env: Env<K>)
    requires Sound(t, env) && AllAllocate(ops) && ops != []
    ensures Inv(t) && Allocates(ops[0]) && AllAllocate(ops[1..])
  {
    hide Inv, Allocates;
    assert ops[0] in ops;
  }

  /** The accounts of a run are those of its first operation and of the rest. */
  lemma RunUnfolds<K(!new), V(!new)>(t: Table<K, V>, ops: seq<Op<K, V>>, env: Env<K>)
    requires Sound(t, env) && AllAllocate(ops) && ops != []
    ensures var t' := Apply(t, ops[0], env);
            && Sound(t', env) && AllAllocate(ops[1..])
            && Run(t, ops, env) == Run(t', ops[1..], env)
            && Inserts(ops) == (if ops[0].InsertOp? then 1 else 0) + Inserts(ops[1..])
            && Relinked(t, ops, env) == (if Expands(t, ops[0]) then t.count else 0) + Relinked(t', ops[1..], env)
  {
    hide Apply, Expands, Allocates, Inv, Hashed, Sound;
    FirstOp(t, ops, env);
    ApplySound(t, ops[0], env);
  }

  lemma NothingRun<K, V>(t: Table<K, V>, env: Env<K>)
    requires Sound(t, env)
    ensures t.primeIndex < PRIME_TABLE_LENGTH && |t.buckets| > 0
    ensures Run(t, [], env) == t && Inserts<K, V>([]) == 0 && Relinked(t, [], env) == 0
  {
    hide Placed, Flatten;
  }

  lemma {:induction false} RunAccounts<K(!new), V(!new)>(t: Table<K, V>, ops: seq<Op<K, V>>, env: Env<K>, from: nat,
          inserted: nat, moved: nat)
    requires Sound(t, env) && AllAllocate(ops) && WithinLimit(t) && Accounts(t, from, inserted, moved)
    ensures var t' := Run(t, ops, env);
            && t'.primeIndex < PRIME_TABLE_LENGTH && WithinLimit(t')
            && Accounts(t', from, inserted + Inserts(ops), moved + Relinked(t, ops, env))
    decreases |ops|
  {
    hide *;
    if ops == [] {
      NothingRun(t, env);
    } else {
      FirstOp(t, ops, env);
      InvPrime(t);
      RunUnfolds(t, ops, env);
      StepAccounts(t, ops[0], env, from, inserted, moved);
      RunAccounts(Apply(t, ops[0], env), ops[1..], env, from,
        inserted + (if ops[0].InsertOp? then 1 else 0), moved + if Expands(t, ops[0]) then t.count else 0);
    }
  }

  /**
   * Over any run from an empty table in which every allocation succeeds, the table stays within
   * its load limit below the last prime, and all its expansions together relink at most three
   * entries for each insertion.
   */
  lemma GrowthIsAmortised<K(!new), V(!new)>(primeIndex: nat, ops: seq<Op<K, V>>, env: Env<K>)
    requires primeIndex < PRIME_TABLE_LENGTH && AllAllocate(ops)
    ensures var t := Created<K, V>(primeIndex); var t' := Run(t, ops, env);
            && t'.primeIndex < PRIME_TABLE_LENGTH && WithinLimit(t')
            && Relinked(t, ops, env) <= 3 * Inserts(ops)
  {
    var t := Created<K, V>(primeIndex);
    CreatedSound<K, V>(primeIndex, env);
    RunAccounts(t, ops, env, primeIndex, 0, 0);
    var t' := Run(t, ops, env);
    hide Run, Relinked, Inserts, Created, Sound, AllAllocate;
    if primeIndex < t'.primeIndex {
      LimitSumBound(primeIndex, t'.primeIndex);
    }
  }
}
