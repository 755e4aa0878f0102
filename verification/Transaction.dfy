/**
 * `TTransation`: the step machine of one transaction, driven by its event queue. The events that
 * producers push before a round, and what the step's `run` answers in it, are parameters.
 */
module Transaction {
  import opened Options
  import Ring
  import Script

  const QUEUE_SIZE: nat := 512

  datatype StepResult = ErrEnd | Succ | SubReturn | NextEvent

  /** The surroundings of one round of `onEvent`. */
  datatype Surroundings<E> = Surroundings(pushed: seq<E>, answer: StepResult)

  /** One call of a step's `run`. */
  datatype Call<E> = Call(step: nat, event: Option<E>, result: StepResult)

  /** The transaction, with the history of accepted events, of calls and of exits. */
  datatype Txn<E> = Txn(
    step: Option<nat>,
    isSend: bool,
    pending: seq<E>,
    accepted: seq<E>,
    log: seq<Call<E>>,
    exits: nat)

  function Entered<E>(n: nat): Txn<E>
  {
    Txn(if n > 0 then Some(0) else None, true, [], [], [], 0)
  }

  // ---------- the script chain ----------

  /** `next()`: the chain built by `TScript::init` ends behind its last step. */
  function NextStep(i: nat, n: nat): Option<nat> { if i + 1 < n then Some(i + 1) else None }

  /** `parent()`. */
  function ParentStep(i: nat): Option<nat> { if i > 0 then Some(i - 1) else None }

  function StepAfter(i: nat, result: StepResult, n: nat): Option<nat>
  {
    match result
    case ErrEnd => None
    case Succ => NextStep(i, n)
    case SubReturn => ParentStep(i)
    case NextEvent => NextStep(i, n)
  }

  // ---------- the machine ----------

  /** `pushEvent` of each of the events in turn. */
  function Push<E>(t: Txn<E>, events: seq<E>): Txn<E>
    decreases |events|
  {
    if events == [] then t
    else if |t.pending| < QUEUE_SIZE - 1
      then Push(t.(pending := t.pending + [events[0]], accepted := t.accepted + [events[0]]), events[1..])
    else Push(t, events[1..])
  }

  /** Whether the round calls the current step: with an event, or to send. */
  predicate Calls<E>(t: Txn<E>) { t.pending != [] || t.isSend }

  function Event<E>(t: Txn<E>): Option<E> { if t.pending != [] then Some(t.pending[0]) else None }

  /** One round of the loop of `onEvent`, when the call, if there is one, answers `result`. */
  function Round<E>(t: Txn<E>, n: nat, result: StepResult): Txn<E>
    requires t.step.Some?
  {
    if !Calls(t) then t
    else
      var after := StepAfter(t.step.value, result, n);
      t.(step := after,
         isSend := t.pending != [],
         pending := if t.pending != [] then t.pending[1..] else [],
         log := t.log + [Call(t.step.value, Event(t), result)],
         exits := if result != NextEvent && after.None? then t.exits + 1 else t.exits)
  }

  /** Whether `onEvent` returns at the end of the round. */
  predicate Returns<E>(t: Txn<E>, n: nat, result: StepResult)
    requires t.step.Some?
  {
    Calls(t) && (result == NextEvent || StepAfter(t.step.value, result, n).None?)
  }

  /** `onEvent`, for as many rounds as there are surroundings; None when it is still polling then. */
  function Rounds<E>(t: Txn<E>, n: nat, rounds: seq<Surroundings<E>>): (r: (Txn<E>, Option<StepResult>))
    requires t.step.Some?
    decreases |rounds|
  {
    if rounds == [] then (t, None)
    else
      var p := Push(t, rounds[0].pushed);
      PushKeepsStep(t, rounds[0].pushed);
      if Returns(p, n, rounds[0].answer) then (Round(p, n, rounds[0].answer), Some(rounds[0].answer))
      else Rounds(Round(p, n, rounds[0].answer), n, rounds[1..])
  }

  lemma {:induction false} PushKeepsStep<E>(t: Txn<E>, events: seq<E>)
    ensures var p := Push(t, events);
            p.step == t.step && p.log == t.log && p.isSend == t.isSend && p.exits == t.exits
    decreases |events|
  {
    if events != [] {
      if |t.pending| < QUEUE_SIZE - 1 {
        PushKeepsStep(t.(pending := t.pending + [events[0]], accepted := t.accepted + [events[0]]), events[1..]);
      } else {
        PushKeepsStep(t, events[1..]);
      }
    }
  }

  // ---------- the invariant ----------

  /** The events given to calls, in order. */
  function EventsOf<E>(log: seq<Call<E>>): seq<E>
  {
    if log == [] then []
    else
      var last := log[|log| - 1].event;
      EventsOf(log[..|log| - 1]) + if last.Some? then [last.value] else []
  }

  /** The step the calls lead to from the start of the chain. */
  function StepAtEnd<E>(log: seq<Call<E>>, n: nat): Option<nat>
  {
    if log == [] then if n > 0 then Some(0) else None
    else StepAfter(log[|log| - 1].step, log[|log| - 1].result, n)
  }

  /** Each call is of the step its predecessors lead to. */
  ghost predicate Path<E>(log: seq<Call<E>>, n: nat)
  {
    forall i | 0 <= i < |log| :: StepAtEnd(log[..i], n) == Some(log[i].step)
  }

  /** No two calls in a row are without an event. */
  ghost predicate Alternates<E>(log: seq<Call<E>>)
  {
    forall i | 0 < i < |log| :: log[i - 1].event.Some? || log[i].event.Some?
  }

  ghost predicate Exited<E>(log: seq<Call<E>>, n: nat)
  {
    log != [] && log[|log| - 1].result != NextEvent && StepAtEnd(log, n).None?
  }

  ghost predicate Inv<E>(t: Txn<E>, n: nat)
  {
    && |t.pending| < QUEUE_SIZE
    && t.accepted == EventsOf(t.log) + t.pending
    && Path(t.log, n) && Alternates(t.log)
    && t.step == StepAtEnd(t.log, n)
    && (t.isSend <==> t.log == [] || t.log[|t.log| - 1].event.Some?)
    && t.exits == if Exited(t.log, n) then 1 else 0
  }

  lemma {:induction false} PushInv<E>(t: Txn<E>, events: seq<E>, n: nat)
    requires Inv(t, n)
    ensures Inv(Push(t, events), n)
    decreases |events|
  {
    if events != [] {
      if |t.pending| < QUEUE_SIZE - 1 {
        var t' := t.(pending := t.pending + [events[0]], accepted := t.accepted + [events[0]]);
        assert t'.accepted == EventsOf(t'.log) + t'.pending;
        PushInv(t', events[1..], n);
      } else {
        PushInv(t, events[1..], n);
      }
    }
  }

  lemma LogGrows<E>(log: seq<Call<E>>, c: Call<E>, n: nat)
    requires Path(log, n) && StepAtEnd(log, n) == Some(c.step)
    ensures Path(log + [c], n) && StepAtEnd(log + [c], n) == StepAfter(c.step, c.result, n)
    ensures EventsOf(log + [c]) == EventsOf(log) + if c.event.Some? then [c.event.value] else []
  {
    var more := log + [c];
    assert more[..|log|] == log;
    forall i | 0 <= i < |more| ensures StepAtEnd(more[..i], n) == Some(more[i].step) {
      assert i < |log| ==> more[..i] == log[..i];
    }
  }

  lemma EventsGrow<E>(log: seq<Call<E>>, c: Call<E>, pending: seq<E>)
    requires c.event == if pending != [] then Some(pending[0]) else None
    ensures EventsOf(log + [c]) + (if pending != [] then pending[1..] else []) == EventsOf(log) + pending
  {
    assert (log + [c])[..|log|] == log;
    if pending != [] {
      assert pending == [pending[0]] + pending[1..];
    }
  }

  lemma AlternatesGrows<E>(log: seq<Call<E>>, c: Call<E>)
    requires Alternates(log) && (log == [] || log[|log| - 1].event.Some? || c.event.Some?)
    ensures Alternates(log + [c])
  {
  }

  /** The script is left by the call that leads out of the chain, and not before. */
  lemma ExitGrows<E>(log: seq<Call<E>>, c: Call<E>, n: nat)
    requires StepAtEnd(log, n) == Some(c.step)
    ensures !Exited(log, n)
    ensures Exited(log + [c], n) <==> c.result != NextEvent && StepAfter(c.step, c.result, n).None?
  {
    hide StepAfter;
  }

  lemma RoundInv<E>(t: Txn<E>, n: nat, result: StepResult)
    requires Inv(t, n) && t.step.Some?
    ensures Inv(Round(t, n, result), n)
  {
    if Calls(t) {
      var c := Call(t.step.value, Event(t), result);
      LogGrows(t.log, c, n);
      EventsGrow(t.log, c, t.pending);
      AlternatesGrows(t.log, c);
      ExitGrows(t.log, c, n);
      hide Path, EventsOf, Alternates, Exited, StepAtEnd, StepAfter;
      assert (t.log + [c])[|t.log|] == c;
    }
  }

  /** `onEvent` keeps the invariant. */
  lemma {:induction false} OnEventInv<E>(t: Txn<E>, n: nat, rounds: seq<Surroundings<E>>)
    requires Inv(t, n) && t.step.Some?
    ensures Inv(Rounds(t, n, rounds).0, n)
    decreases |rounds|
  {
    if rounds != [] {
      hide Inv, Push, Round, Returns;
      var p := Push(t, rounds[0].pushed);
      PushKeepsStep(t, rounds[0].pushed);
      PushInv(t, rounds[0].pushed, n);
      RoundInv(p, n, rounds[0].answer);
      if !Returns(p, n, rounds[0].answer) {
        StaysIn(p, n, rounds[0].answer);
        OnEventInv(Round(p, n, rounds[0].answer), n, rounds[1..]);
      }
    }
  }

  /** Nothing has come in since the last call, and that call had no event. */
  predicate Waits<E>(t: Txn<E>)
  {
    t.pending == [] && t.log != [] && t.log[|t.log| - 1].event.None?
  }

  /**
   * What a round does to the history: nothing exactly when the transaction waits; otherwise it adds
   * one call, of the current step, with the oldest event or with none.
   */
  lemma RoundCalls<E>(t: Txn<E>, n: nat, result: StepResult)
    requires Inv(t, n) && t.step.Some?
    ensures var t' := Round(t, n, result);
            && (Waits(t) ==> t' == t && !Returns(t, n, result))
            && (!Waits(t) ==>
                  && t'.log
                     == t.log + [Call(t.step.value, if t.pending == [] then None else Some(t.pending[0]), result)]
                  && t'.pending == (if t.pending == [] then [] else t.pending[1..])
                  && (Returns(t, n, result) <==> result == NextEvent || t'.step.None?))
  {
    hide Path, EventsOf, Alternates, Exited, StepAtEnd, StepAfter;
  }

  lemma StaysIn<E>(t: Txn<E>, n: nat, result: StepResult)
    requires t.step.Some? && !Returns(t, n, result)
    ensures Round(t, n, result).step.Some?
  {
  }

  /** A round adds one call, with its answer, or none. */
  lemma RoundAnswers<E>(t: Txn<E>, n: nat, result: StepResult)
    requires t.step.Some?
    ensures var t' := Round(t, n, result);
            if t'.log == t.log then t'.step == t.step && !Returns(t, n, result)
            else && |t'.log| == |t.log| + 1 && t.log <= t'.log && t'.log[|t.log|].result == result
                 && (Returns(t, n, result) <==> result == NextEvent || t'.step.None?)
  {
    hide StepAfter;
  }

  /**
   * The calls `onEvent` adds have answers of its rounds; it returns the answer of the last call,
   * having left the chain or waiting for the next event, or else it is still at a step and none of
   * these calls has asked for the next event.
   */
  lemma {:induction false} OnEventAnswers<E>(t: Txn<E>, n: nat, rounds: seq<Surroundings<E>>, allowed: set<StepResult>)
    requires t.step.Some?
    requires forall k | 0 <= k < |rounds| :: rounds[k].answer in allowed
    requires forall i | 0 <= i < |t.log| :: t.log[i].result in allowed
    ensures var (t', r) := Rounds(t, n, rounds);
            && (forall i | 0 <= i < |t'.log| :: t'.log[i].result in allowed)
            && (r.Some? ==>
                  && t'.log != [] && t'.log[|t'.log| - 1].result == r.value
                  && (r.value == NextEvent || t'.step.None?))
            && t.log <= t'.log
            && (r.None? ==> t'.step.Some? && forall i | |t.log| <= i < |t'.log| :: t'.log[i].result != NextEvent)
            && (r.Some? ==> forall i | |t.log| <= i < |t'.log| - 1 :: t'.log[i].result != NextEvent)
    decreases |rounds|
  {
    if rounds != [] {
      hide Push, Round, Returns;
      var p := Push(t, rounds[0].pushed);
      PushKeepsStep(t, rounds[0].pushed);
      RoundAnswers(p, n, rounds[0].answer);
      if !Returns(p, n, rounds[0].answer) {
        StaysIn(p, n, rounds[0].answer);
        OnEventAnswers(Round(p, n, rounds[0].answer), n, rounds[1..], allowed);
      }
    }
  }

  // ---------- the theorems ----------

  /** How far an answer moves along the chain. */
  function Move(result: StepResult): int
  {
    match result
    case ErrEnd => 0
    case Succ => 1
    case SubReturn => -1
    case NextEvent => 1
  }

  /** Where the answers of the calls have moved to, counted from the start of the chain. */
  function Position<E>(log: seq<Call<E>>): int
  {
    if log == [] then 0 else Position(log[..|log| - 1]) + Move(log[|log| - 1].result)
  }

  /** One answer leads from a step of the chain to the next position, if that is one of the chain. */
  lemma StepMoves(i: nat, result: StepResult, n: nat)
    requires i < n
    ensures StepAfter(i, result, n)
         == if result == ErrEnd || !(0 <= i + Move(result) < n) then None else Some(i + Move(result))
  {
  }

  lemma {:induction false} WalkAt<E>(log: seq<Call<E>>, n: nat, i: nat)
    requires Path(log, n) && i < |log|
    ensures log[i].step == Position(log[..i]) < n && (i > 0 ==> log[i - 1].result != ErrEnd)
  {
    assert StepAtEnd(log[..i], n) == Some(log[i].step);
    if i > 0 {
      WalkAt(log, n, i - 1);
      hide Path, StepAfter, Move;
      assert log[..i][..i - 1] == log[..i - 1] && log[..i][i - 1] == log[i - 1];
      StepMoves(log[i - 1].step, log[i - 1].result, n);
    }
  }

  /**
   * The calls walk along the chain: each is of the step at the position the answers before it have
   * moved to, none of which was an error; and there is a step to call exactly as long as no answer
   * was an error and the position is one of the chain.
   */
  lemma {:induction false} PathIsWalk<E>(log: seq<Call<E>>, n: nat)
    requires Path(log, n)
    ensures forall i | 0 <= i < |log| :: log[i].step == Position(log[..i]) < n
    ensures forall i | 0 <= i < |log| - 1 :: log[i].result != ErrEnd
    ensures StepAtEnd(log, n)
         == if (log != [] && log[|log| - 1].result == ErrEnd) || !(0 <= Position(log) < n) then None
            else Some(Position(log))
  {
    hide *;
    forall i | 0 <= i < |log| ensures log[i].step == Position(log[..i]) < n {
      WalkAt(log, n, i);
    }
    forall i | 0 <= i < |log| - 1 ensures log[i].result != ErrEnd {
      WalkAt(log, n, i + 1);
    }
    WalkEnds(log, n);
  }

  lemma WalkEnds<E>(log: seq<Call<E>>, n: nat)
    requires Path(log, n)
    ensures StepAtEnd(log, n)
         == if (log != [] && log[|log| - 1].result == ErrEnd) || !(0 <= Position(log) < n) then None
            else Some(Position(log))
  {
    hide Path, Move, StepAfter;
    if log != [] {
      WalkAt(log, n, |log| - 1);
      StepMoves(log[|log| - 1].step, log[|log| - 1].result, n);
    }
  }

  /** With steps that only succeed or end in error, the i-th call is of the i-th step. */
  lemma {:induction false} StraightPath<E>(log: seq<Call<E>>, n: nat, i: nat)
    requires Path(log, n) && i < |log|
    requires forall k | 0 <= k < |log| :: log[k].result == Succ || log[k].result == ErrEnd
    ensures log[i].step == i < n && (i + 1 < |log| ==> log[i].result == Succ)
  {
    assert StepAtEnd(log[..i], n) == Some(log[i].step);
    if i > 0 {
      StraightPath(log, n, i - 1);
    }
    if i + 1 < |log| {
      assert StepAtEnd(log[..i + 1], n) == Some(log[i + 1].step);
    }
  }

  lemma {:induction false} WholePathIsStraight<E>(log: seq<Call<E>>, n: nat)
    requires Path(log, n) && forall k | 0 <= k < |log| :: log[k].result == Succ || log[k].result == ErrEnd
    ensures |log| <= n
    ensures forall i | 0 <= i < |log| :: log[i].step == i && (i + 1 < |log| ==> log[i].result == Succ)
  {
    forall i | 0 <= i < |log| ensures log[i].step == i && (i + 1 < |log| ==> log[i].result == Succ) {
      StraightPath(log, n, i);
    }
    if log != [] {
      StraightPath(log, n, |log| - 1);
    }
  }

  /**
   * A transaction that ends, with steps that only succeed or end in error: it called a prefix of
   * the chain, each step once and in order, all of it exactly when the last answer was success;
   * it never made two calls in a row without an event, gave each event it took to one call, and
   * left the script exactly once.
   */
  lemma {:induction false} EndedTransaction<E>(n: nat, rounds: seq<Surroundings<E>>)
    requires n > 0 && forall k | 0 <= k < |rounds| :: rounds[k].answer == Succ || rounds[k].answer == ErrEnd
    ensures var (t, r) := Rounds(Entered<E>(n), n, rounds);
            && (r.Some? ==>
                  && 0 < |t.log| <= n && t.step.None? && t.exits == 1
                  && (t.log[|t.log| - 1].result == Succ <==> r == Some(Succ))
                  && (r == Some(Succ) <==> |t.log| == n && t.log[n - 1].result == Succ))
            && (r.None? ==> t.exits == 0)
            && (forall i | 0 <= i < |t.log| :: t.log[i].step == i && (i + 1 < |t.log| ==> t.log[i].result == Succ))
            && Alternates(t.log)
            && t.accepted == EventsOf(t.log) + t.pending
  {
    var t0 := Entered<E>(n);
    OnEventInv(t0, n, rounds);
    OnEventAnswers(t0, n, rounds, {Succ, ErrEnd});
    var (t, r) := Rounds(t0, n, rounds);
    WholePathIsStraight(t.log, n);
  }

  /** The rounds of `onEvent` in which it waits. */
  function Waited<E>(t: Txn<E>, n: nat, rounds: seq<Surroundings<E>>): nat
    requires t.step.Some?
    decreases |rounds|
  {
    if rounds == [] then 0
    else
      var p := Push(t, rounds[0].pushed);
      PushKeepsStep(t, rounds[0].pushed);
      if Waits(p) then 1 + Waited(p, n, rounds[1..])
      else if Returns(p, n, rounds[0].answer) then 0
      else
        StaysIn(p, n, rounds[0].answer);
        Waited(Round(p, n, rounds[0].answer), n, rounds[1..])
  }

  /** As long as `onEvent` polls, every round in which it does not wait makes a call. */
  lemma {:induction false} CallsMade<E>(t: Txn<E>, n: nat, rounds: seq<Surroundings<E>>)
    requires Inv(t, n) && t.step.Some?
    ensures var (t', r) := Rounds(t, n, rounds);
            && (r.None? ==> |t'.log| + Waited(t, n, rounds) == |t.log| + |rounds|)
            && (r.Some? ==> |t'.log| + Waited(t, n, rounds) <= |t.log| + |rounds|)
    decreases |rounds|
  {
    if rounds != [] {
      hide Inv, Push, Round, Returns, Waits;
      var p := Push(t, rounds[0].pushed);
      PushKeepsStep(t, rounds[0].pushed);
      PushInv(t, rounds[0].pushed, n);
      RoundCalls(p, n, rounds[0].answer);
      RoundInv(p, n, rounds[0].answer);
      if !Returns(p, n, rounds[0].answer) {
        StaysIn(p, n, rounds[0].answer);
        CallsMade(Round(p, n, rounds[0].answer), n, rounds[1..]);
      }
    }
  }
  /**
   * A chain of n steps that all succeed: `onEvent` returns success, having called every step once,
   * exactly when it has been given n rounds in which it does not wait.
   */
  lemma Completes<E>(n: nat, rounds: seq<Surroundings<E>>)
    requires n > 0 && forall k | 0 <= k < |rounds| :: rounds[k].answer == Succ
    ensures var (t, r) := Rounds(Entered<E>(n), n, rounds);
            var calls := |rounds| - Waited(Entered<E>(n), n, rounds);
            if calls >= n then r == Some(Succ) && |t.log| == n else r == None && |t.log| == calls
  {
    hide Rounds, Waited;
    var t0 := Entered<E>(n);
    EndedTransaction(n, rounds);
    CallsMade(t0, n, rounds);
    OnEventInv(t0, n, rounds);
    OnEventAnswers(t0, n, rounds, {Succ});
    WholePathIsStraight(Rounds(t0, n, rounds).0.log, n);
  }

  /** The first round pushes an event, or a call could do without. */
  predicate Ready<E>(t: Txn<E>, rounds: seq<Surroundings<E>>)
  {
    t.log == [] || t.log[|t.log| - 1].event.Some? || rounds == [] || rounds[0].pushed != []
  }

  lemma PushedIsPending<E>(t: Txn<E>, events: seq<E>)
    ensures Push(t, events).pending == [] ==> events == [] && t.pending == []
    decreases |events|
  {
    if events != [] {
      if |t.pending| < QUEUE_SIZE - 1 {
        PushedIsPending(t.(pending := t.pending + [events[0]], accepted := t.accepted + [events[0]]), events[1..]);
      } else {
        PushedIsPending(t, events[1..]);
      }
    }
  }

  /** It never waits when no two rounds in a row push nothing: each call that needs an event finds one. */
  lemma {:induction false} FedNeverWaits<E>(t: Txn<E>, n: nat, rounds: seq<Surroundings<E>>)
    requires Inv(t, n) && t.step.Some? && Ready(t, rounds)
    requires forall k | 0 < k < |rounds| :: rounds[k - 1].pushed != [] || rounds[k].pushed != []
    ensures Waited(t, n, rounds) == 0
    decreases |rounds|
  {
    if rounds != [] {
      hide Inv, Push, Round, Returns;
      var p := Push(t, rounds[0].pushed);
      PushKeepsStep(t, rounds[0].pushed);
      PushInv(t, rounds[0].pushed, n);
      PushedIsPending(t, rounds[0].pushed);
      RoundCalls(p, n, rounds[0].answer);
      RoundInv(p, n, rounds[0].answer);
      if !Returns(p, n, rounds[0].answer) {
        StaysIn(p, n, rounds[0].answer);
        assert |rounds| > 1 ==> rounds[0].pushed != [] || rounds[1].pushed != [];
        FedNeverWaits(Round(p, n, rounds[0].answer), n, rounds[1..]);
      }
    }
  }

  /** So an event at least every other round carries such a chain through in n rounds. */
  lemma FedCompletes<E>(n: nat, rounds: seq<Surroundings<E>>)
    requires n > 0 && n <= |rounds| && forall k | 0 <= k < |rounds| :: rounds[k].answer == Succ
    requires forall k | 0 < k < |rounds| :: rounds[k - 1].pushed != [] || rounds[k].pushed != []
    ensures var (t, r) := Rounds(Entered<E>(n), n, rounds); r == Some(Succ) && |t.log| == n
  {
    FedNeverWaits(Entered<E>(n), n, rounds);
    Completes(n, rounds);
  }

  /** And fewer events than one for every other call carry no transaction through. */
  lemma {:induction false} FewestEvents<E>(log: seq<Call<E>>)
    requires Alternates(log)
    ensures |log| <= 2 * |EventsOf(log)| + if log == [] || log[|log| - 1].event.Some? then 0 else 1
    decreases |log|
  {
    if log != [] {
      var init := log[..|log| - 1];
      assert |init| > 0 ==> init[|init| - 1] == log[|log| - 2];
      FewestEvents(init);
    }
  }

  /** `onEvent` called again and again, each time with its rounds, while there is a step; and its last answer. */
  function Visits<E>(t: Txn<E>, n: nat, visits: seq<seq<Surroundings<E>>>,
          last: Option<StepResult>): (r: (Txn<E>, Option<StepResult>))
    decreases |visits|
  {
    if visits == [] || t.step.None? then (t, last)
    else
      var (t', answer) := Rounds(t, n, visits[0]);
      // a call still polling is the last one
      if answer.None? then (t', None) else Visits(t', n, visits[1..], answer)
  }

  ghost predicate AnsweredLast<E>(t: Txn<E>, last: Option<StepResult>)
  {
    t.step.None? ==> last.Some? && t.log != [] && t.log[|t.log| - 1].result == last.value
  }

  lemma {:induction false} VisitsInv<E>(t: Txn<E>, n: nat, visits: seq<seq<Surroundings<E>>>, last: Option<StepResult>)
    requires Inv(t, n) && AnsweredLast(t, last)
    ensures var (t', r) := Visits(t, n, visits, last); Inv(t', n) && AnsweredLast(t', r)
    decreases |visits|
  {
    if visits != [] && t.step.Some? {
      hide Inv, Rounds;
      OnEventInv(t, n, visits[0]);
      AnyAnswer(t, n, visits[0]);
      var (t', answer) := Rounds(t, n, visits[0]);
      if answer.Some? {
        VisitsInv(t', n, visits[1..], answer);
      }
    }
  }

  lemma AnyAnswer<E>(t: Txn<E>, n: nat, rounds: seq<Surroundings<E>>)
    requires t.step.Some?
    ensures var (t', r) := Rounds(t, n, rounds);
            && (r.Some? ==> t'.log != [] && t'.log[|t'.log| - 1].result == r.value)
            && (r.None? ==> t'.step.Some?)
  {
    hide Rounds;
    forall k | 0 <= k < |rounds| ensures rounds[k].answer in ANSWERS {
      EveryAnswer(rounds[k].answer);
    }
    forall i | 0 <= i < |t.log| ensures t.log[i].result in ANSWERS {
      EveryAnswer(t.log[i].result);
    }
    OnEventAnswers(t, n, rounds, ANSWERS);
  }

  const ANSWERS: set<StepResult> := {ErrEnd, Succ, SubReturn, NextEvent}

  lemma EveryAnswer(result: StepResult)
    ensures result in ANSWERS
  {
    match result
    case ErrEnd =>
    case Succ =>
    case SubReturn =>
    case NextEvent =>
  }

  /**
   * Over every life of a transaction, however often `onEvent` is called: while it is at a step it
   * has not left the script; once it is past its chain it has left exactly once, unless its last
   * answer was "next event", which returns before the end of the chain is looked at, and then never.
   */
  lemma LeftUnlessNextEvent<E>(n: nat, visits: seq<seq<Surroundings<E>>>)
    requires n > 0
    ensures var (t, r) := Visits(Entered<E>(n), n, visits, None);
            && (t.step.Some? ==> t.exits == 0)
            && (t.step.None? ==> r.Some? && t.exits == if r == Some(NextEvent) then 0 else 1)
  {
    VisitsInv(Entered<E>(n), n, visits, None);
  }

  /** The smallest such transaction that never leaves. */
  lemma NeverLeaves()
    ensures var (t, r) := Rounds(Entered<int>(1), 1, [Surroundings([], NextEvent)]);
            t.step.None? && r == Some(NextEvent) && t.exits == 0
  {
    assert Push(Entered<int>(1), []) == Entered<int>(1);
  }

  // ---------- the class ----------

  class Transation<E> {
    const queue: Ring.Ring<E>
    const script: Script.Script
    var curStep: Option<nat>
    var isSend: bool
    ghost var accepted: seq<E>
    ghost var log: seq<Call<E>>
    ghost var exits: nat

    ghost predicate Valid()
      reads this, queue, queue.slots
    {
      queue.Valid() && queue.size == QUEUE_SIZE
    }

    ghost function Abs(): Txn<E>
      reads this, queue
    {
      Txn(curStep, isSend, queue.contents, accepted, log, exits)
    }

    constructor (script: Script.Script)
      modifies script
      ensures Valid() && fresh(queue) && fresh(queue.slots) && this.script == script
      ensures Abs() == Entered(script.length)
      ensures script.nUsing == Script.Plus(old(script.nUsing)) && script.nUsed == old(script.nUsed)
    {
      queue := new Ring.Ring(QUEUE_SIZE);
      isSend := true;
      this.script := script;
      accepted, log, exits := [], [], 0;
      new;
      var first := script.Enter();
      curStep := if first then Some(0) else None;
    }

    method PushEvent(event: E) returns (ret: bool)
      requires Valid()
      modifies this`accepted, queue, queue.slots
      ensures Valid() && ret == (|old(queue.contents)| < QUEUE_SIZE - 1)
      ensures Abs() == Push(old(Abs()), [event])
    {
      ret := queue.Enqueue(event);
      if ret {
        accepted := accepted + [event];
      }
    }

    /** Producers push these events before the next round. */
    method PushAll(events: seq<E>)
      requires Valid()
      modifies this`accepted, queue, queue.slots
      ensures Valid() && Abs() == Push(old(Abs()), events)
    {
      for i := 0 to |events|
        invariant Valid()
        invariant Push(Abs(), events[i..]) == Push(old(Abs()), events)
      {
        assert events[i..][0] == events[i] && events[i..][1..] == events[i + 1..];
        var ret := PushEvent(events[i]);
      }
    }

    /** One round of `onEvent`: whether it returns. */
    method OneRound(answer: StepResult) returns (leaves: bool)
      requires Valid() && curStep.Some?
      modifies this, queue, queue.slots, script
      ensures Valid() && Abs() == Round(old(Abs()), script.length, answer)
      ensures leaves == Returns(old(Abs()), script.length, answer)
      ensures if exits == old(exits) then script.nUsing == old(script.nUsing) && script.nUsed == old(script.nUsed)
              else && leaves && exits == old(exits) + 1
                   && script.nUsing == Script.Minus(old(script.nUsing))
                   && script.nUsed == Script.Plus(old(script.nUsed))
    {
      var event: Option<E> := None;
      var size := queue.Size();
      if size > 0 {
        event := queue.Dequeue();
      }
      if event.None? {
        if isSend {
          isSend := false;
        } else {
          return false;
        }
      } else {
        isSend := true;
      }
      // ret = m_curStep->run(pEvent)
      var ret := answer;
      log := log + [Call(curStep.value, event, ret)];
      match ret {
        case ErrEnd =>
          curStep := None;
        case Succ =>
          curStep := NextStep(curStep.value, script.length);
        case SubReturn =>
          curStep := ParentStep(curStep.value);
        case NextEvent =>
          curStep := NextStep(curStep.value, script.length);
          return true;
      }
      if curStep.None? {
        exits := exits + 1;
        script.Exit();
        return true;
      }
      return false;
    }

    method OnEvent(rounds: seq<Surroundings<E>>) returns (ended: Option<StepResult>)
      requires Valid() && curStep.Some?
      modifies this, queue, queue.slots, script
      ensures Valid() && (Abs(), ended) == Rounds(old(Abs()), script.length, rounds)
      ensures if exits == old(exits) then script.nUsing == old(script.nUsing) && script.nUsed == old(script.nUsed)
              else && exits == old(exits) + 1
                   && script.nUsing == Script.Minus(old(script.nUsing))
                   && script.nUsed == Script.Plus(old(script.nUsed))
    {
      hide Round, Returns, Push;
      for i := 0 to |rounds|
        invariant Valid() && curStep.Some? && exits == old(exits)
        invariant script.nUsing == old(script.nUsing) && script.nUsed == old(script.nUsed)
        invariant Rounds(Abs(), script.length, rounds[i..]) == Rounds(old(Abs()), script.length, rounds)
      {
        assert rounds[i..][0] == rounds[i] && rounds[i..][1..] == rounds[i + 1..];
        PushKeepsStep(Abs(), rounds[i].pushed);
        PushAll(rounds[i].pushed);
        ghost var before := Abs();
        var done := OneRound(rounds[i].answer);
        if done {
          return Some(rounds[i].answer);
        }
        StaysIn(before, script.length, rounds[i].answer);
      }
      return None;
    }
  }
}
