/**
 * The rounds of a transaction over its shared queue: what the atomic machine of Transaction does is
 * what the interleaved queue of EventProtocol lets it see.
 */
module EventRefinement {
  import opened Options
  import opened AtomicQueue
  import opened Transaction
  import E = EventProtocol
  import R = RingSteps

  function Polls<T>(history: seq<Act<T>>): nat
  {
    if history == [] then 0 else (if history[0].Poll? then 1 else 0) + Polls(history[1..])
  }

  /** One round for each poll: the offers before it, and what the step answers in it. */
  function RoundsOf<T>(pushed: seq<T>, history: seq<Act<T>>, answers: seq<StepResult>): seq<Surroundings<T>>
    requires |answers| == Polls(history)
    decreases |history|
  {
    if history == [] then []
    else
      match history[0]
      case Offer(item) => RoundsOf(pushed + [item], history[1..], answers)
      case Poll(_) => [Surroundings(pushed, answers[0])] + RoundsOf([], history[1..], answers[1..])
  }

  /** The offers behind the last poll. */
  function Trailing<T>(pushed: seq<T>, history: seq<Act<T>>): seq<T>
    decreases |history|
  {
    if history == [] then pushed
    else
      match history[0]
      case Offer(item) => Trailing(pushed + [item], history[1..])
      case Poll(_) => Trailing([], history[1..])
  }

  lemma {:induction false} PushOne<T>(t: Txn<T>, events: seq<T>, item: T)
    ensures var p, q := Push(t, events), Push(t, events + [item]);
            && q.pending == QueueAfter(p.pending, Offer(item), QUEUE_SIZE - 1)
            && q.step == t.step && q.log == t.log
    decreases |events|
  {
    var more := events + [item];
    if events == [] {
      assert more[1..] == [];
    } else {
      assert more[1..] == events[1..] + [item];
      if |t.pending| < QUEUE_SIZE - 1 {
        PushOne(t.(pending := t.pending + [events[0]], accepted := t.accepted + [events[0]]), events[1..], item);
      } else {
        PushOne(t, events[1..], item);
      }
    }
  }

  lemma EventsSnoc<T>(log: seq<Call<T>>, c: Call<T>)
    ensures EventsOf(log + [c]) == EventsOf(log) + if c.event.Some? then [c.event.value] else []
  {
    assert (log + [c])[..|log|] == log;
  }

  /** A round polls the queue once, and gives what it finds to a call. */
  lemma RoundPolls<T>(t: Txn<T>, n: nat, result: StepResult, found: Option<T>)
    requires t.step.Some? && found == Front(t.pending)
    ensures var t' := Round(t, n, result);
            && t'.pending == QueueAfter(t.pending, Poll(found), QUEUE_SIZE - 1)
            && EventsOf(t'.log) == EventsOf(t.log) + if found.Some? then [found.value] else []
  {
    EventsSnoc(t.log, Call(t.step.value, Event(t), result));
  }

  /** The machine and the history after the same polls. */
  ghost predicate Agree<T>(r: (Txn<T>, Option<StepResult>), trailing: seq<T>, before: seq<T>, found: seq<T>,
          queue: seq<T>)
  {
    && EventsOf(r.0.log) <= before + found
    && (r.1.None? ==> EventsOf(r.0.log) == before + found && Push(r.0, trailing).pending == queue)
  }

  lemma {:induction false} RoundsAgree<T>(t: Txn<T>, n: nat, pushed: seq<T>, history: seq<Act<T>>,
          answers: seq<StepResult>)
    requires t.step.Some? && |answers| == Polls(history)
    requires PollsAgree(Push(t, pushed).pending, history, QUEUE_SIZE - 1)
    ensures var queue := QueueAtEnd(Push(t, pushed).pending, history, QUEUE_SIZE - 1);
            Agree(Rounds(t, n, RoundsOf(pushed, history, answers)), Trailing(pushed, history), EventsOf(t.log),
                  Found(history), queue)
    decreases |history|
  {
    hide Push, QueueAfter, EventsOf, Round, Returns;
    if history == [] {
      assert EventsOf(t.log) + [] == EventsOf(t.log);
    } else if history[0].Offer? {
      PushOne(t, pushed, history[0].item);
      RoundsAgree(t, n, pushed + [history[0].item], history[1..], answers);
      assert [] + Found(history[1..]) == Found(history[1..]);
    } else {
      RoundAgrees(t, n, pushed, history, answers);
    }
  }

  lemma {:induction false} RoundAgrees<T>(t: Txn<T>, n: nat, pushed: seq<T>, history: seq<Act<T>>,
          answers: seq<StepResult>)
    requires t.step.Some? && |answers| == Polls(history) && history != [] && history[0].Poll?
    requires PollsAgree(Push(t, pushed).pending, history, QUEUE_SIZE - 1)
    ensures var queue := QueueAtEnd(Push(t, pushed).pending, history, QUEUE_SIZE - 1);
            Agree(Rounds(t, n, RoundsOf(pushed, history, answers)), Trailing(pushed, history), EventsOf(t.log),
                  Found(history), queue)
    decreases |history|, 0
  {
    hide Push, QueueAfter, EventsOf, Round, Returns;
    var p := Push(t, pushed);
    PushKeepsStep(t, pushed);
    RoundPolls(p, n, answers[0], history[0].found);
    var t' := Round(p, n, answers[0]);
    var here := if history[0].found.Some? then [history[0].found.value] else [];
    var rest := RoundsOf([], history[1..], answers[1..]);
    assert EventsOf(t.log) + (here + Found(history[1..])) == (EventsOf(t.log) + here) + Found(history[1..]);
    assert ([Surroundings(pushed, answers[0])] + rest)[1..] == rest;
    if !Returns(p, n, answers[0]) {
      StaysIn(p, n, answers[0]);
      NothingPushed(t');
      RoundsAgree(t', n, [], history[1..], answers[1..]);
    }
  }

  lemma NothingPushed<T>(t: Txn<T>)
    ensures Push(t, []) == t
  {
  }

  /**
   * For every interleaving of a producer with the transaction's guarded dequeues, and whatever its
   * steps answer: the machine that pushes and polls at once, fed the linearized history, gives its
   * calls the events the interleaving took from the ring, in order, and holds the events the ring
   * holds; if it ends sooner, a prefix of them.
   */
  lemma MachineSeesQueue<T(!new)>(worlds: seq<E.World<T>>, k: nat, n: nat, answers: seq<StepResult>)
    requires E.IsRun(worlds, QUEUE_SIZE) && k < |worlds| && n > 0 && |answers| == Polls(worlds[k].history)
    ensures var w := worlds[k];
            var (t, r) := Rounds(Entered<T>(n), n, RoundsOf([], w.history, answers));
            && EventsOf(t.log) <= w.ring.taken
            && (r.None? ==>
                  var t' := Push(t, Trailing([], w.history));
                  EventsOf(t'.log) == w.ring.taken && t'.pending == R.Queue(w.ring) && t'.accepted == w.ring.accepted)
  {
    hide E.IsRun, Rounds, Push, QueueAtEnd, PollsAgree, AnswersOf, Found;
    var w, t0 := worlds[k], Entered<T>(n);
    E.QueueIsAtomic(worlds, QUEUE_SIZE, k);
    E.NoEventLost(worlds, QUEUE_SIZE, k);
    E.RunInv(worlds, QUEUE_SIZE, k);
    NothingPushed(t0);
    RoundsAgree(t0, n, [], w.history, answers);
    OnEventInv(t0, n, RoundsOf([], w.history, answers));
    var (t, r) := Rounds(t0, n, RoundsOf([], w.history, answers));
    PushInv(t, Trailing([], w.history), n);
    PushKeepsStep(t, Trailing([], w.history));
  }
}
