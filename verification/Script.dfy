/** `TScript`'s usage counters: compare-and-swap loops on 64-bit words. */
module Script {

  const TWO_64: nat := 0x1_0000_0000_0000_0000

  type Word = w: int | 0 <= w < TWO_64

  function Plus(w: Word): Word { if w == TWO_64 - 1 then 0 else w + 1 }

  function Minus(w: Word): Word { if w == 0 then TWO_64 - 1 else w - 1 }

  // ---------- one caller at a time ----------

  class Script {
    const length: nat // the number of steps in the chain
    var nUsing: Word
    var nUsed: Word

    constructor (length: nat, nUsing: Word, nUsed: Word)
      ensures this.length == length && this.nUsing == nUsing && this.nUsed == nUsed
    {
      this.length, this.nUsing, this.nUsed := length, nUsing, nUsed;
    }

    /** CAS(&m_nUsing, expected, desired). */
    method CasUsing(expected: Word, desired: Word) returns (swapped: bool)
      modifies this`nUsing
      ensures swapped == (old(nUsing) == expected)
      ensures nUsing == if swapped then desired else old(nUsing)
    {
      swapped := nUsing == expected;
      if swapped {
        nUsing := desired;
      }
    }

    /** CAS(&m_nUsed, expected, desired). */
    method CasUsed(expected: Word, desired: Word) returns (swapped: bool)
      modifies this`nUsed
      ensures swapped == (old(nUsed) == expected)
      ensures nUsed == if swapped then desired else old(nUsed)
    {
      swapped := nUsed == expected;
      if swapped {
        nUsed := desired;
      }
    }

    /** `enter`; whether there is a first step to return. */
    method Enter() returns (first: bool)
      modifies this`nUsing
      ensures nUsing == Plus(old(nUsing)) && first == (length > 0)
    {
      var swapped := false;
      while !swapped
        invariant nUsing == if swapped then Plus(old(nUsing)) else old(nUsing)
        decreases !swapped
      {
        var before := nUsing;
        swapped := CasUsing(before, Plus(before));
      }
      return length > 0;
    }

    /** `exit`. */
    method Exit()
      modifies this`nUsing, this`nUsed
      ensures nUsing == Minus(old(nUsing)) && nUsed == Plus(old(nUsed))
    {
      var swapped := false;
      while !swapped
        invariant nUsed == old(nUsed) && nUsing == if swapped then Minus(old(nUsing)) else old(nUsing)
        decreases !swapped
      {
        var before := nUsing;
        swapped := CasUsing(before, Minus(before));
      }
      swapped := false;
      while !swapped
        invariant nUsing == Minus(old(nUsing)) && nUsed == if swapped then Plus(old(nUsed)) else old(nUsed)
        decreases !swapped
      {
        var before := nUsed;
        swapped := CasUsed(before, Plus(before));
      }
    }
  }

  // ---------- every interleaving ----------

  /** A transaction inside `enter`, between the two, or inside one of the two loops of `exit`. */
  datatype Thread =
    | Outside
    | EnterLoaded(before: Word)
    | Live
    | LeaveLoaded(before: Word)
    | Left
    | CountLoaded(before: Word)
    | Finished

  datatype Counters = Counters(nUsing: Word, nUsed: Word, threads: seq<Thread>)

  /** One step of thread i: a load, or the compare-and-swap that follows it; a failed one loops back. */
  function Next(c: Counters, i: nat): Counters
    requires i < |c.threads|
  {
    match c.threads[i]
    case Outside => c.(threads := c.threads[i := EnterLoaded(c.nUsing)])
    case EnterLoaded(before) =>
      if c.nUsing == before then c.(nUsing := Plus(before), threads := c.threads[i := Live])
      else c.(threads := c.threads[i := Outside])
    case Live => c.(threads := c.threads[i := LeaveLoaded(c.nUsing)])
    case LeaveLoaded(before) =>
      if c.nUsing == before then c.(nUsing := Minus(before), threads := c.threads[i := Left])
      else c.(threads := c.threads[i := Live])
    case Left => c.(threads := c.threads[i := CountLoaded(c.nUsed)])
    case CountLoaded(before) =>
      if c.nUsed == before then c.(nUsed := Plus(before), threads := c.threads[i := Finished])
      else c.(threads := c.threads[i := Left])
    case Finished => c
  }

  function RunAll(c: Counters, schedule: seq<nat>): Counters
    requires forall k | 0 <= k < |schedule| :: schedule[k] < |c.threads|
    decreases |schedule|
  {
    if schedule == [] then c else RunAll(Next(c, schedule[0]), schedule[1..])
  }

  function Sum(threads: seq<Thread>, f: Thread -> nat): nat
  {
    if threads == [] then 0 else f(threads[0]) + Sum(threads[1..], f)
  }

  function Holding(t: Thread): nat { if t.Live? || t.LeaveLoaded? then 1 else 0 }

  function Ended(t: Thread): nat { if t.Finished? then 1 else 0 }

  /** The transactions that have entered and not left. */
  function LiveCount(threads: seq<Thread>): nat { Sum(threads, Holding) }

  function FinishedCount(threads: seq<Thread>): nat { Sum(threads, Ended) }

  lemma {:induction false} SumAfterUpdate(threads: seq<Thread>, i: nat, t: Thread, f: Thread -> nat)
    requires i < |threads|
    ensures Sum(threads[i := t], f) == Sum(threads, f) - f(threads[i]) + f(t)
  {
    if i > 0 {
      SumAfterUpdate(threads[1..], i - 1, t, f);
      assert threads[i := t][1..] == threads[1..][i - 1 := t];
    } else {
      assert threads[i := t][1..] == threads[1..];
    }
  }

  /** The counters have moved as the threads have, modulo 2^64. */
  ghost predicate InStep(c: Counters, c': Counters)
  {
    && (c'.nUsing - c.nUsing - (LiveCount(c'.threads) - LiveCount(c.threads))) % TWO_64 == 0
    && (c'.nUsed - c.nUsed - (FinishedCount(c'.threads) - FinishedCount(c.threads))) % TWO_64 == 0
  }

  lemma StepCounts(c: Counters, i: nat)
    requires i < |c.threads|
    ensures InStep(c, Next(c, i)) && |Next(c, i).threads| == |c.threads|
  {
    hide Sum;
    var c' := Next(c, i);
    if c' != c {
      SumAfterUpdate(c.threads, i, c'.threads[i], Holding);
      SumAfterUpdate(c.threads, i, c'.threads[i], Ended);
    }
  }

  lemma SumOfMultiples(x: int, y: int)
    requires x % TWO_64 == 0 && y % TWO_64 == 0
    ensures (x + y) % TWO_64 == 0
  {
  }

  lemma InStepTwice(a: Counters, b: Counters, c: Counters)
    requires InStep(a, b) && InStep(b, c)
    ensures InStep(a, c)
  {
    var live := (b.nUsing - a.nUsing - (LiveCount(b.threads) - LiveCount(a.threads)),
                 c.nUsing - b.nUsing - (LiveCount(c.threads) - LiveCount(b.threads)));
    var used := (b.nUsed - a.nUsed - (FinishedCount(b.threads) - FinishedCount(a.threads)),
                 c.nUsed - b.nUsed - (FinishedCount(c.threads) - FinishedCount(b.threads)));
    hide LiveCount, FinishedCount;
    SumOfMultiples(live.0, live.1);
    SumOfMultiples(used.0, used.1);
  }

  /**
   * Over every interleaving of the loops of any number of transactions: the use counter is its
   * initial value plus the transactions that are live, and the used counter its initial value plus
   * the finished ones, both modulo 2^64.
   */
  lemma {:induction false} CountersAgree(c: Counters, schedule: seq<nat>)
    requires forall k | 0 <= k < |schedule| :: schedule[k] < |c.threads|
    ensures InStep(c, RunAll(c, schedule))
    decreases |schedule|
  {
    if schedule == [] {
      assert InStep(c, c);
    } else {
      hide InStep, Next;
      StepCounts(c, schedule[0]);
      CountersAgree(Next(c, schedule[0]), schedule[1..]);
      InStepTwice(c, Next(c, schedule[0]), RunAll(c, schedule));
    }
  }

  lemma {:induction false} NobodyYet(threads: seq<Thread>)
    requires forall i | 0 <= i < |threads| :: threads[i] == Outside
    ensures LiveCount(threads) == 0 && FinishedCount(threads) == 0
  {
    if threads != [] { NobodyYet(threads[1..]); }
  }

  lemma {:induction false} CountsAreBounded(threads: seq<Thread>)
    ensures LiveCount(threads) + FinishedCount(threads) <= |threads|
  {
    if threads != [] { CountsAreBounded(threads[1..]); }
  }

  lemma {:induction false} ThreadsStay(c: Counters, schedule: seq<nat>)
    requires forall k | 0 <= k < |schedule| :: schedule[k] < |c.threads|
    ensures |RunAll(c, schedule).threads| == |c.threads|
    decreases |schedule|
  {
    if schedule != [] { ThreadsStay(Next(c, schedule[0]), schedule[1..]); }
  }

  /** A word that agrees with x modulo 2^64 is x, if x fits. */
  lemma Agreeing(w: Word, x: nat)
    requires (w - x) % TWO_64 == 0 && x < TWO_64
    ensures w == x
  {
  }

  /**
   * Counted from before the first transaction, and while the counters have room: `m_nUsing` exceeds
   * its initial value by exactly the live transactions, `m_nUsed` by exactly the finished ones.
   */
  lemma CountersExceed(c: Counters, schedule: seq<nat>)
    requires forall k | 0 <= k < |schedule| :: schedule[k] < |c.threads|
    requires forall i | 0 <= i < |c.threads| :: c.threads[i] == Outside
    requires c.nUsing + |c.threads| < TWO_64 && c.nUsed + |c.threads| < TWO_64
    ensures var c' := RunAll(c, schedule);
            && c'.nUsing == c.nUsing + LiveCount(c'.threads)
            && c'.nUsed == c.nUsed + FinishedCount(c'.threads)
  {
    var c' := RunAll(c, schedule);
    CountersAgree(c, schedule);
    NobodyYet(c.threads);
    CountsAreBounded(c'.threads);
    ThreadsStay(c, schedule);
    Agreeing(c'.nUsing, c.nUsing + LiveCount(c'.threads));
    Agreeing(c'.nUsed, c.nUsed + FinishedCount(c'.threads));
  }

  // ---------- progress ----------

  /** How many of its three swaps a transaction has made. */
  function Swaps(t: Thread): nat
  {
    match t
    case Outside => 0
    case EnterLoaded(_) => 0
    case Live => 1
    case LeaveLoaded(_) => 1
    case Left => 2
    case CountLoaded(_) => 2
    case Finished => 3
  }

  function Loaded(t: Thread): nat { if t.EnterLoaded? || t.LeaveLoaded? || t.CountLoaded? then 1 else 0 }

  /** Whose next swap will fail: the word has changed since it was loaded. */
  function Stale(nUsing: Word, nUsed: Word): Thread -> nat
  {
    (t: Thread) =>
      match t
      case EnterLoaded(before) => if before == nUsing then 0 else 1
      case LeaveLoaded(before) => if before == nUsing then 0 else 1
      case CountLoaded(before) => if before == nUsed then 0 else 1
      case _ => 0
  }

  /**
   * The steps left at most: a swap that succeeds makes at most every other loaded word stale, and
   * each of these costs one failed swap and one load more.
   */
  function StepsLeft(c: Counters): int
  {
    var n := |c.threads|;
    2 * n * (3 * n - Sum(c.threads, Swaps)) + 2 * Sum(c.threads, Stale(c.nUsing, c.nUsed))
        + (n - Sum(c.threads, Loaded))
  }

  lemma {:induction false} SumBound(threads: seq<Thread>, f: Thread -> nat, most: nat)
    requires forall t :: f(t) <= most
    ensures Sum(threads, f) <= most * |threads|
  {
    if threads != [] {
      SumBound(threads[1..], f, most);
      assert most * |threads| == most + most * |threads[1..]|;
    }
  }

  /** At most all the others. */
  lemma SumOfOthers(threads: seq<Thread>, i: nat, f: Thread -> nat)
    requires i < |threads| && f(threads[i]) == 0 && forall t :: f(t) <= 1
    ensures Sum(threads, f) < |threads|
    decreases |threads|
  {
    if i > 0 {
      SumOfOthers(threads[1..], i - 1, f);
    } else {
      SumBound(threads[1..], f, 1);
    }
  }

  /** Every step of a transaction that has not finished uses up one of them. */
  lemma StepUsesOne(c: Counters, i: nat)
    requires i < |c.threads| && !c.threads[i].Finished?
    ensures StepsLeft(Next(c, i)) < StepsLeft(c)
  {
    hide Sum;
    var c', n := Next(c, i), |c.threads|;
    var t' := c'.threads[i];
    var f, f' := Stale(c.nUsing, c.nUsed), Stale(c'.nUsing, c'.nUsed);
    SumAfterUpdate(c.threads, i, t', Swaps);
    SumAfterUpdate(c.threads, i, t', Loaded);
    if Swaps(t') == Swaps(c.threads[i]) {
      SumAfterUpdate(c.threads, i, t', f);
    } else {
      SumOfOthers(c'.threads, i, f');
      assert 2 * n * (3 * n - Sum(c'.threads, Swaps)) == 2 * n * (3 * n - Sum(c.threads, Swaps)) - 2 * n;
    }
  }

  /** No step of the schedule is given to a transaction that has finished. */
  predicate Wanted(c: Counters, schedule: seq<nat>)
    decreases |schedule|
  {
    schedule != [] ==>
      && schedule[0] < |c.threads| && !c.threads[schedule[0]].Finished?
      && Wanted(Next(c, schedule[0]), schedule[1..])
  }

  /**
   * Whatever the interleaving, n transactions have all finished, having entered and left, after at
   * most 6n * n + 3n steps: a schedule that gives every step to an unfinished one cannot be longer.
   */
  lemma {:induction false} EveryoneFinishes(c: Counters, schedule: seq<nat>)
    requires Wanted(c, schedule)
    ensures |schedule| <= StepsLeft(c) <= 6 * |c.threads| * |c.threads| + 3 * |c.threads|
    decreases |schedule|
  {
    StepsBounds(c);
    if schedule != [] {
      hide StepsLeft, Next;
      StepUsesOne(c, schedule[0]);
      EveryoneFinishes(Next(c, schedule[0]), schedule[1..]);
    }
  }

  lemma StepsBounds(c: Counters)
    ensures 0 <= StepsLeft(c) <= 6 * |c.threads| * |c.threads| + 3 * |c.threads|
  {
    hide Sum;
    var n, swaps := |c.threads|, Sum(c.threads, Swaps);
    SumBound(c.threads, Swaps, 3);
    SumBound(c.threads, Loaded, 1);
    SumBound(c.threads, Stale(c.nUsing, c.nUsed), 1);
    assert 0 <= 2 * n * (3 * n - swaps) <= 2 * n * (3 * n);
  }
}
