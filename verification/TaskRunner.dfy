/** A worker's batches: `startTask`, `time_cb` and `runTask`. */
module TaskRunner {

  const INT_MAX: int := 0x7FFF_FFFF
  const INT_MIN: int := -0x8000_0000

  type Int = i: int | INT_MIN <= i <= INT_MAX

  /** A start command. */
  datatype Command = Command(tps: Int, total: Int, duration: Int)

  /** The size of the next batch in total mode. */
  function Batch(tps: int, total: int, count: int): int
  {
    if count + tps > total then total - count else tps
  }

  /** Whether a call of `runTask` starts a batch. */
  predicate Starts(tps: int, total: int, duration: int, count: int, secs: int)
  {
    if total > 0 then Batch(tps, total, count) > 0 else duration <= 0 || secs + 1 <= duration
  }

  /** How many transactions that batch asks for. */
  function NewTasks(tps: int, total: int, count: int): int { if total > 0 then Batch(tps, total, count) else tps }

  predicate Fits(x: int) { INT_MIN <= x <= INT_MAX }

  /** Every addition and subtraction the call makes stays within an int. */
  predicate Defined(tps: int, total: int, duration: int, count: int, secs: int)
  {
    && (total > 0 ==> Fits(count + tps) && (count + tps > total ==> Fits(total - count)))
    && (total <= 0 && duration > 0 ==> Fits(secs + 1))
    && (Starts(tps, total, duration, count, secs) ==> Fits(count + NewTasks(tps, total, count)) && Fits(duration + 1))
  }

  /**
   * In duration mode a batch is started exactly while a second is left, or when no duration is set.
   * No code counts the seconds, so none of a task's calls ever finds that none is left.
   */
  lemma DurationIsExact(tps: int, total: int, duration: int, secs: int, count: int)
    requires total <= 0
    ensures !Starts(tps, total, duration, count, secs) <==> 0 < duration <= secs
    ensures Starts(tps, total, duration, count, 0)
  {
  }

  function CeilDiv(a: nat, b: nat): nat
    requires b > 0
  {
    (a + b - 1) / b
  }

  /** ceil(a / b) is the one k whose multiple is the first to reach a. */
  lemma CeilDivIs(a: nat, b: nat, k: nat)
    requires b > 0 && k > 0 && (k - 1) * b < a <= k * b
    ensures CeilDiv(a, b) == k
  {
    var x, r := a + b - 1, a - 1 - (k - 1) * b;
    assert x == k * b + r && 0 <= r < b by {
      assert (k - 1) * b == k * b - b;
    }
    QuotientIs(x, b, k, r);
  }

  lemma QuotientIs(x: nat, b: nat, k: nat, r: nat)
    requires b > 0 && r < b && x == k * b + r
    ensures x / b == k
  {
    var q, s := x / b, x % b;
    assert x == q * b + s && 0 <= s < b;
    if q < k {
      MultipleGrows(q + 1, k, b);
    } else if q > k {
      MultipleGrows(k + 1, q, b);
    }
  }

  lemma MultipleGrows(x: nat, y: nat, b: nat)
    requires x <= y
    ensures x * b <= y * b
  {
  }

  /** While k full batches have not reached a, at least one more is needed. */
  lemma CeilDivAbove(a: nat, b: nat, k: nat)
    requires b > 0 && k * b < a
    ensures k < CeilDiv(a, b)
  {
    var q, s := (a + b - 1) / b, (a + b - 1) % b;
    assert a + b - 1 == q * b + s && 0 <= s < b;
    if q <= k {
      MultipleGrows(q, k, b);
    }
  }

  function Sum(batches: seq<int>): int
  {
    if batches == [] then 0 else Sum(batches[..|batches| - 1]) + batches[|batches| - 1]
  }

  /** Batches that start `count` of `total` transactions: full ones, and a smaller last one at most. */
  ghost predicate Batched(batches: seq<int>, tps: int, total: int, count: int)
  {
    && batches != [] && Sum(batches) == count <= total
    && (forall i | 0 <= i < |batches| :: 1 <= batches[i] <= tps)
    && (forall i | 0 <= i < |batches| - 1 :: batches[i] == tps)
    && (count < total ==> batches[|batches| - 1] == tps)
  }

  lemma FirstBatch(tps: int, total: int)
    requires tps >= 1 && total >= 1
    ensures Batched([Batch(tps, total, 0)], tps, total, Batch(tps, total, 0))
  {
    var b := Batch(tps, total, 0);
    assert Sum([b]) == Sum([b][..0]) + b;
  }

  lemma NextBatch(batches: seq<int>, tps: int, total: int, count: int)
    requires tps >= 1 && count < total && Batched(batches, tps, total, count)
    ensures var b := Batch(tps, total, count); Batched(batches + [b], tps, total, count + b)
  {
    var b := Batch(tps, total, count);
    assert (batches + [b])[..|batches|] == batches;
  }

  lemma {:induction false} FullBatches(batches: seq<int>, tps: nat)
    requires forall i | 0 <= i < |batches| :: batches[i] == tps
    ensures Sum(batches) == |batches| * tps
  {
    if batches != [] { FullBatches(batches[..|batches| - 1], tps); }
  }

  /** The number of batches. */
  lemma BatchesNeeded(batches: seq<int>, tps: nat, total: nat, count: int)
    requires tps >= 1 && Batched(batches, tps, total, count)
    ensures if count < total then |batches| < CeilDiv(total, tps) else |batches| == CeilDiv(total, tps)
  {
    var k := |batches|;
    FullBatches(batches[..k - 1], tps);
    var last := batches[k - 1];
    assert k * tps == (k - 1) * tps + tps;
    if count < total {
      CeilDivAbove(total, tps, k);
    } else {
      CeilDivIs(total, tps, k);
    }
  }

  class Worker {
    var tps: Int
    var total: Int
    var duration: Int
    var nCount: Int
    var nSecs: Int
    var timer: bool // whether m_timerEvent is pending
    ghost var batches: seq<int> // the transactions started by each successful runTask
    ghost var started: nat // the transactions started in all

    constructor ()
      ensures !timer && batches == [] && started == 0
    {
      tps, total, duration, nCount, nSecs, timer := 0, 0, 0, 0, 0, false;
      batches, started := [], 0;
    }

    /** `runTask`. */
    method RunTask() returns (ret: bool)
      requires Defined(tps, total, duration, nCount, nSecs)
      modifies this`nCount, this`duration, this`batches, this`started
      ensures ret == Starts(tps, total, old(duration), old(nCount), nSecs)
      ensures !ret ==>
        nCount == old(nCount) && duration == old(duration) && batches == old(batches) && started == old(started)
      ensures ret ==>
        var n := NewTasks(tps, total, old(nCount));
        && nCount == old(nCount) + n && duration == old(duration) + 1 && batches == old(batches) + [n]
        && started == old(started) + if n > 0 then n else 0
    {
      var nNewTask: Int := tps;
      ret := true;
      if total > 0 {
        var sum: Int := nCount + nNewTask;
        nNewTask := if sum > total then total - nCount else nNewTask;
        if nNewTask <= 0 {
          ret := false;
        }
      } else if duration > 0 {
        var secs: Int := nSecs + 1;
        if secs > duration {
          ret := false;
        }
      }
      if ret {
        nCount := nCount + nNewTask;
        duration := duration + 1;
        batches := batches + [nNewTask];
        var i := 0;
        while i < nNewTask
          invariant 0 <= i && (i <= nNewTask || i == 0) && started == old(started) + i
          invariant nCount == old(nCount) + nNewTask && duration == old(duration) + 1
               && batches == old(batches) + [nNewTask]
        {
          // a TTransation is made and its onEvent called
          started := started + 1;
          i := i + 1;
        }
      }
    }

    /** `startTask`. */
    method StartTask(command: Command) returns (ret: bool)
      requires Defined(command.tps, command.total, command.duration, 0, 0)
      modifies this
      ensures tps == command.tps && total == command.total && nSecs == 0
      ensures ret == Starts(tps, total, command.duration, 0, 0)
      ensures timer == (old(timer) || ret)
      ensures !ret ==> nCount == 0 && duration == command.duration && batches == old(batches) && started == old(started)
      ensures ret ==>
        && nCount == NewTasks(tps, total, 0) && duration == command.duration + 1
        && batches == old(batches) + [nCount] && started == old(started) + if nCount > 0 then nCount else 0
    {
      tps := command.tps;
      total := command.total;
      duration := command.duration;
      nCount := 0;
      nSecs := 0;
      ret := RunTask();
      if ret {
        timer := true;
      }
    }

    /** `time_cb`. */
    method TimeCb()
      requires timer && Defined(tps, total, duration, nCount, nSecs)
      modifies this`timer, this`nCount, this`duration, this`batches, this`started
      ensures timer == Starts(tps, total, old(duration), old(nCount), nSecs)
      ensures timer ==>
        var n := NewTasks(tps, total, old(nCount));
        && nCount == old(nCount) + n && duration == old(duration) + 1 && batches == old(batches) + [n]
        && started == old(started) + if n > 0 then n else 0
      ensures !timer ==>
        nCount == old(nCount) && batches == old(batches) && started == old(started) && duration == old(duration)
    {
      timer := false; // the event has fired
      var ret := RunTask();
      if ret {
        timer := true;
      } else {
        timer := false;
      }
    }

    /** A task in total mode is under way: the batches behind `before` are its own. */
    ghost predicate Performing(command: Command, before: seq<int>, startedBefore: nat)
      reads this
    {
      && tps == command.tps && total == command.total && nSecs == 0
      && before <= batches && Batched(batches[|before|..], tps, total, nCount) && 0 <= nCount <= total
      && (!timer ==> nCount == total)
      && duration == command.duration + |batches| - |before| && started == startedBefore + nCount
    }

    /** A command whose counters stay within an int: the call that stops the task still adds tps to the full count. */
    static ghost predicate Performable(command: Command)
    {
      && command.tps >= 1 && command.total >= 1 && command.total + command.tps <= INT_MAX
      && command.duration + CeilDiv(command.total, command.tps) <= INT_MAX
    }

    /** One timer event of such a task. */
    method TimerRound(command: Command, ghost before: seq<int>, ghost startedBefore: nat)
      requires Performable(command) && Performing(command, before, startedBefore) && timer
      modifies this`timer, this`nCount, this`duration, this`batches, this`started
      ensures Performing(command, before, startedBefore) && (timer ==> nCount > old(nCount))
    {
      hide CeilDiv, Batched, Sum;
      ghost var was := batches[|before|..];
      BatchesNeeded(was, tps, total, nCount);
      if nCount < total {
        NextBatch(was, tps, total, nCount);
        BatchIsWithin(tps, total, nCount);
      }
      TimeCb();
      assert timer ==> batches[|before|..] == was + [batches[|batches| - 1]];
    }

    /**
     * A start command and every timer event after it, in total mode: exactly `total` transactions
     * are started, at most tps at a time, in exactly ceil(total / tps) batches, and the timer stops.
     */
    method Perform(command: Command)
      requires Performable(command)
      modifies this
      ensures !timer && nCount == command.total && started == old(started) + command.total
      ensures old(batches) <= batches
      ensures var own := batches[|old(batches)|..];
              && |own| == CeilDiv(command.total, command.tps) && Sum(own) == command.total
              && forall i | 0 <= i < |own| :: 1 <= own[i] <= command.tps && (i < |own| - 1 ==> own[i] == command.tps)
    {
      ghost var before := batches;
      CeilDivAbove(command.total, command.tps, 0);
      FirstBatch(command.tps, command.total);
      var ret := StartTask(command);
      assert batches[|before|..] == [nCount];
      hide CeilDiv, Batched, Sum;
      while timer
        invariant Performing(command, before, old(started))
        decreases timer, total - nCount
      {
        TimerRound(command, before, old(started));
      }
      BatchesNeeded(batches[|before|..], tps, total, nCount);
      BatchedMeans(batches[|before|..], tps, total, nCount);
    }
  }

  lemma BatchIsWithin(tps: int, total: int, count: int)
    requires tps >= 1 && count < total
    ensures 0 < Batch(tps, total, count) && count + Batch(tps, total, count) <= total
  {
  }

  lemma BatchedMeans(batches: seq<int>, tps: int, total: int, count: int)
    requires Batched(batches, tps, total, count)
    ensures Sum(batches) == count
    ensures forall i | 0 <= i < |batches| :: 1 <= batches[i] <= tps && (i < |batches| - 1 ==> batches[i] == tps)
  {
  }
}
