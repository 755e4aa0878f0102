/**
 * A transaction's event queue: `pushEvent` on one thread, the `size() > 0` guard and `dequeue` of
 * `onEvent` on another.
 */
module EventProtocol {
  import opened AtomicQueue
  import opened Options
  import opened Ring
  import opened RingSteps
  import opened Runs

  datatype Consumer<T> =
    | Away
    | HeadLoaded(h: nat) // inside size(), after m_head
    | Passed // the guard has seen a positive size
    | Dequeuing
    | Polled(event: Option<T>) // the guard and the dequeue are done; null when the guard failed

  datatype World<T> = World(
    ring: State<T>,
    pushing: bool,
    consumer: Consumer<T>,
    answers: seq<bool>, // what pushEvent has returned so far
    delivered: seq<T>, // the events handed to steps
    history: seq<Act<T>>) // each pushEvent and each guarded dequeue, when it takes effect

  function Start<T>(size: nat): World<T>
  {
    World(Initial(size), false, Away, [], [], [])
  }

  datatype Step<T> =
    | PushEvent(event: T)
    | EnqueueStep
    | LoadHead
    | LoadTail
    | EnterDequeue
    | DequeueStep
    | Deliver

  predicate Enabled<T>(w: World<T>, step: Step<T>)
  {
    match step
    case PushEvent(_) => !w.pushing
    case EnqueueStep => w.pushing
    case LoadHead => w.consumer == Away
    case LoadTail => w.consumer.HeadLoaded?
    case EnterDequeue => w.consumer == Passed
    case DequeueStep => w.consumer == Dequeuing
    case Deliver => w.consumer.Polled?
  }

  /** The value of `size()`. */
  function SizeOf(h: nat, t: nat, n: nat): int { if h <= t then t - h else n - h + t }

  function Next<T>(w: World<T>, step: Step<T>): World<T>
    requires w.ring.size > 0 && Enabled(w, step)
  {
    match step
    case PushEvent(event) => w.(ring := BeginEnqueue(w.ring, event), pushing := true)
    case EnqueueStep =>
      w.(ring := StepEnqueue(w.ring),
         pushing := !EnqueueAccepts(w.ring) && !EnqueueRefuses(w.ring),
         answers := if EnqueueAccepts(w.ring) then w.answers + [true]
                    else if EnqueueRefuses(w.ring) then w.answers + [false]
                    else w.answers,
         history := if EnqueueAccepts(w.ring) || EnqueueRefuses(w.ring) then w.history + [Offer(w.ring.enq.item)]
                    else w.history)
    case LoadHead => w.(consumer := HeadLoaded(w.ring.head))
    case LoadTail =>
      if SizeOf(w.consumer.h, w.ring.tail, w.ring.size) > 0 then w.(consumer := Passed)
      else w.(consumer := Polled(None), history := w.history + [Poll(None)])
    case EnterDequeue => w.(ring := BeginDequeue(w.ring), consumer := Dequeuing)
    case DequeueStep =>
      w.(ring := StepDequeue(w.ring),
         consumer := if LeavesDequeue(w.ring) then Polled(Returning(w.ring)) else Dequeuing,
         history := if LeavesDequeue(w.ring) then w.history + [Poll(Returning(w.ring))] else w.history)
    case Deliver =>
      w.(consumer := Away,
         delivered := if w.consumer.event.Some? then w.delivered + [w.consumer.event.value] else w.delivered)
  }

  /** The event found and not yet handed to a step. */
  function InHand<T>(c: Consumer<T>): seq<T> { if c.Polled? && c.event.Some? then [c.event.value] else [] }

  ghost predicate WorldInv<T>(w: World<T>, size: nat)
  {
    && Inv(w.ring) && w.ring.size == size
    && (w.pushing <==> w.ring.enq != NotEnqueuing)
    && (w.consumer == Dequeuing <==> w.ring.deq != NotDequeuing)
    && (w.consumer.HeadLoaded? ==> w.consumer.h == w.ring.head)
    && (w.consumer == Passed ==> Queue(w.ring) != [])
    && w.ring.taken == w.delivered + InHand(w.consumer)
    && Trues(w.answers) == |w.ring.accepted|
    && Linearized(w)
  }

  /** An atomic queue fed the history answers the same, finds the same and holds the same. */
  ghost predicate Linearized<T>(w: World<T>)
  {
    && QueueAtEnd([], w.history, w.ring.size - 1) == Queue(w.ring)
    && PollsAgree([], w.history, w.ring.size - 1)
    && AnswersOf([], w.history, w.ring.size - 1) == w.answers
    && Found(w.history) == w.ring.taken
  }

  /** `size()` reads the exact length of the queue, however the producer moves meanwhile. */
  lemma SizeIsExact<T>(s: State<T>)
    requires Inv(s)
    ensures SizeOf(s.head, s.tail, s.size) == |Queue(s)|
  {
  }

  lemma StartInv<T>(size: nat)
    requires size > 1
    ensures WorldInv(Start<T>(size), size)
  {
  }

  lemma WorldStepInv<T>(w: World<T>, step: Step<T>, size: nat)
    requires WorldInv(w, size) && Enabled(w, step)
    ensures WorldInv(Next(w, step), size)
  {
    hide WorldInv, Next;
    match step
    case PushEvent(event) => PushEventInv(w, event, size);
    case EnqueueStep => EnqueueStepInv(w, size);
    case LoadHead => LoadHeadInv(w, size);
    case LoadTail => LoadTailInv(w, size);
    case EnterDequeue => EnterDequeueInv(w, size);
    case DequeueStep => DequeueStepInv(w, size);
    case Deliver => DeliverInv(w, size);
  }

  lemma PushEventInv<T>(w: World<T>, event: T, size: nat)
    requires WorldInv(w, size) && !w.pushing
    ensures WorldInv(Next(w, PushEvent(event)), size)
  {
    hide Inv, Queue, QueueAtEnd, PollsAgree, AnswersOf, Found;
    BeginEnqueueInv(w.ring, event);
    SameQueue(w.ring, BeginEnqueue(w.ring, event));
  }

  lemma LoadHeadInv<T>(w: World<T>, size: nat)
    requires WorldInv(w, size) && w.consumer == Away
    ensures WorldInv(Next(w, LoadHead), size)
  {
    assert w.ring.size > 0;
    hide Inv, Queue, Linearized;
    SameHistory(w, Next(w, LoadHead));
  }

  lemma SameHistory<T>(w: World<T>, w': World<T>)
    requires w'.ring == w.ring && w'.history == w.history && w'.answers == w.answers
    ensures Linearized(w') <==> Linearized(w)
  {
    hide QueueAtEnd, PollsAgree, AnswersOf, Found, Queue;
  }

  lemma LoadTailInv<T>(w: World<T>, size: nat)
    requires WorldInv(w, size) && w.consumer.HeadLoaded?
    ensures WorldInv(Next(w, LoadTail), size)
  {
    hide Inv, Queue, QueueAtEnd, PollsAgree, AnswersOf, Found;
    SizeIsExact(w.ring);
    OneMore([], w.history, Poll(None), w.ring.size - 1);
    assert w.ring.taken + [] == w.ring.taken && w.answers + [] == w.answers;
  }

  lemma EnterDequeueInv<T>(w: World<T>, size: nat)
    requires WorldInv(w, size) && w.consumer == Passed
    ensures WorldInv(Next(w, EnterDequeue), size)
  {
    hide Inv, Queue, QueueAtEnd, PollsAgree, AnswersOf, Found;
    BeginDequeueInv(w.ring);
    SameQueue(w.ring, BeginDequeue(w.ring));
  }

  lemma DeliverInv<T>(w: World<T>, size: nat)
    requires WorldInv(w, size) && w.consumer.Polled?
    ensures WorldInv(Next(w, Deliver), size)
  {
    assert w.ring.size > 0;
    hide Inv, Queue, Linearized;
    SameHistory(w, Next(w, Deliver));
    assert w.delivered + [] == w.delivered;
  }

  lemma EnqueueStepInv<T>(w: World<T>, size: nat)
    requires WorldInv(w, size) && w.pushing
    ensures WorldInv(Next(w, EnqueueStep), size)
  {
    hide StepEnqueue, Inv, Queue, QueueAtEnd, PollsAgree, AnswersOf, Found;
    EnqueuePc(w.ring);
    StepEnqueueInv(w.ring);
    RoomWhenAccepted(w.ring);
    TruesSnoc(w.answers, true);
    TruesSnoc(w.answers, false);
    OneMore([], w.history, Offer(w.ring.enq.item), w.ring.size - 1);
  }

  lemma RoomWhenAccepted<T>(s: State<T>)
    requires Inv(s)
    ensures s.enq.SlotWritten? ==> |Queue(s)| < s.size - 1
  {
  }

  lemma SomethingQueued<T>(s: State<T>)
    requires Inv(s) && s.deq != NotDequeuing
    ensures Queue(s) != []
  {
  }

  lemma DequeueStepInv<T>(w: World<T>, size: nat)
    requires WorldInv(w, size) && w.consumer == Dequeuing
    ensures WorldInv(Next(w, DequeueStep), size)
  {
    hide StepDequeue, Inv, Queue, QueueAtEnd, PollsAgree, AnswersOf, Found;
    DequeuePc(w.ring);
    SomethingQueued(w.ring);
    StepDequeueInv(w.ring);
    OneMore([], w.history, Poll(Returning(w.ring)), w.ring.size - 1);
  }

  // ---------- every interleaving ----------

  /** The two threads as one machine. */
  ghost function Threads<T>(size: nat): Machine<World<T>, Step<T>>
  {
    Machine(Start(size), (w: World<T>, step: Step<T>) => w.ring.size > 0 && Enabled(w, step),
            (w: World<T>, step: Step<T>) requires w.ring.size > 0 && Enabled(w, step) => Next(w, step))
  }

  ghost predicate IsRun<T(!new)>(worlds: seq<World<T>>, size: nat) { Runs.IsRun(Threads(size), worlds) }

  lemma RunInv<T(!new)>(worlds: seq<World<T>>, size: nat, k: nat)
    requires size > 1 && IsRun(worlds, size) && k < |worlds|
    ensures WorldInv(worlds[k], size)
  {
    hide WorldInv, Next, Enabled, Start;
    var m, inv := Threads<T>(size), (w: World<T>) => WorldInv(w, size);
    StartInv<T>(size);
    forall w, step | inv(w) && m.can(w, step) ensures inv(m.next(w, step)) {
      WorldStepInv(w, step, size);
    }
    RunKeeps(m, worlds, inv, k);
  }

  /**
   * Over every interleaving: the events delivered are a prefix of the events accepted, in order and
   * without repetition, nothing accepted is lost, and the ring never holds more than size - 1.
   */
  lemma NoEventLost<T(!new)>(worlds: seq<World<T>>, size: nat, k: nat)
    requires size > 1 && IsRun(worlds, size) && k < |worlds|
    ensures var w := worlds[k];
            && w.ring.accepted == w.delivered + InHand(w.consumer) + Queue(w.ring)
            && |Queue(w.ring)| <= size - 1
            && |w.ring.accepted| == Trues(w.answers)
  {
    hide IsRun, Threads;
    RunInv(worlds, size, k);
    var w := worlds[k];
    assert w.ring.accepted == w.ring.taken + Queue(w.ring);
  }

  lemma SizeOfWorld<T>(w: World<T>, size: nat)
    requires WorldInv(w, size)
    ensures w.ring.size == size
  {
    hide Inv, Linearized;
  }

  lemma Delivers<T>(w: World<T>, size: nat)
    requires WorldInv(w, size) && w.consumer == Dequeuing && LeavesDequeue(w.ring)
    ensures Queue(w.ring) != [] && Next(w, DequeueStep).consumer == Polled(Some(Queue(w.ring)[0]))
  {
    hide StepDequeue, Inv, Queue, Linearized;
    SomethingQueued(w.ring);
    StepDequeueInv(w.ring);
  }

  lemma GuardIsExact<T>(w: World<T>, size: nat)
    requires WorldInv(w, size) && w.consumer.HeadLoaded?
    ensures Next(w, LoadTail).consumer == Polled(None) <==> Queue(w.ring) == []
  {
    hide Inv, Queue, Linearized;
    SizeIsExact(w.ring);
  }

  /**
   * Over every interleaving: once the guard has seen a positive size, the dequeue behind it leaves
   * with the oldest event, fully published; the guard fails exactly when the queue is empty.
   */
  lemma GuardedDequeueDelivers<T(!new)>(worlds: seq<World<T>>, size: nat, k: nat)
    requires size > 1 && IsRun(worlds, size) && k < |worlds|
    ensures var w := worlds[k];
            && w.ring.size == size
            && (w.consumer == Dequeuing && LeavesDequeue(w.ring) ==>
                  Queue(w.ring) != [] && Next(w, DequeueStep).consumer == Polled(Some(Queue(w.ring)[0])))
            && (w.consumer.HeadLoaded? ==> (Next(w, LoadTail).consumer == Polled(None) <==> Queue(w.ring) == []))
  {
    hide IsRun, Threads, WorldInv, Next, LeavesDequeue, Queue;
    RunInv(worlds, size, k);
    SizeOfWorld(worlds[k], size);
    var w := worlds[k];
    if w.consumer == Dequeuing && LeavesDequeue(w.ring) {
      Delivers(w, size);
    }
    if w.consumer.HeadLoaded? {
      GuardIsExact(w, size);
    }
  }

  /** `pushEvent` refuses an event exactly when the ring is full at the moment it looks. */
  lemma RefusesOnlyWhenFull<T(!new)>(worlds: seq<World<T>>, size: nat, k: nat)
    requires size > 1 && IsRun(worlds, size) && k < |worlds|
    ensures var w := worlds[k];
            w.ring.size == size && (w.pushing && w.ring.enq.TailRead? ==>
            (Next(w, EnqueueStep).answers == w.answers + [false] <==> |Queue(w.ring)| == size - 1))
  {
    hide IsRun, Threads;
    RunInv(worlds, size, k);
    StepEnqueueInv(worlds[k].ring);
  }

  /**
   * Over every interleaving the queue is linearizable: as if each `pushEvent` and each guarded
   * `dequeue` had happened at once, at some moment between its call and its return.
   */
  lemma QueueIsAtomic<T(!new)>(worlds: seq<World<T>>, size: nat, k: nat)
    requires size > 1 && IsRun(worlds, size) && k < |worlds|
    ensures var w := worlds[k];
            && QueueAtEnd([], w.history, size - 1) == Queue(w.ring)
            && PollsAgree([], w.history, size - 1)
            && AnswersOf([], w.history, size - 1) == w.answers
            && Found(w.history) == w.ring.taken
  {
    hide IsRun, Threads;
    RunInv(worlds, size, k);
  }

  // ---------- progress ----------

  predicate Produces<T>(step: Step<T>) { step.PushEvent? || step.EnqueueStep? }

  predicate Consumes<T>(step: Step<T>) { !Produces(step) }

  /** The consumer's next step. */
  function NextConsuming<T>(w: World<T>): Step<T>
  {
    match w.consumer
    case Away => LoadHead
    case HeadLoaded(_) => LoadTail
    case Passed => EnterDequeue
    case Dequeuing => DequeueStep
    case Polled(_) => Deliver
  }

  /** Neither thread ever has to wait for the other. */
  lemma NeitherWaits<T>(w: World<T>, event: T)
    ensures Enabled(w, if w.pushing then EnqueueStep else PushEvent(event))
    ensures Enabled(w, NextConsuming(w)) && Consumes(NextConsuming(w))
  {
  }

  /** How far the producer has got: four steps at most for each answer. */
  function Pushes<T>(w: World<T>): int { 4 * |w.answers| + if w.pushing then 4 - EnqueueLeft(w.ring) else 0 }

  /** How far the consumer has got: eight steps for each event it delivers. */
  function Polls<T>(w: World<T>): int
  {
    8 * |w.delivered| +
    match w.consumer
    case Away => 0
    case HeadLoaded(_) => 1
    case Passed => 2
    case Dequeuing => 7 - DequeueLeft(w.ring)
    case Polled(event) => if event.Some? then 7 else -1
  }

  lemma PushesAdvance<T>(w: World<T>, step: Step<T>, size: nat)
    requires WorldInv(w, size) && Enabled(w, step)
    ensures Pushes(Next(w, step)) >= Pushes(w) + if Produces(step) then 1 else 0
  {
    assert w.ring.size > 0;
    hide Inv, Queue, StepEnqueue, StepDequeue, Linearized, EnqueueLeft;
    match step
    case EnqueueStep =>
      EnqueuePc(w.ring);
      EnqueueAdvances(w.ring);
      Phases(w.ring);
      Phases(StepEnqueue(w.ring));
    case DequeueStep => DequeueAdvances(w.ring);
    case PushEvent(event) => Phases(BeginEnqueue(w.ring, event));
    case EnterDequeue => SameEnqueue(w.ring);
    case _ =>
  }

  lemma Phases<T>(s: State<T>)
    ensures EnqueueLeft(s) <= 3 && DequeueLeft(s) <= 4
    ensures (EnqueueLeft(s) == 0 <==> s.enq == NotEnqueuing) && (DequeueLeft(s) == 0 <==> s.deq == NotDequeuing)
    ensures (s.enq.TailRead? <==> EnqueueLeft(s) == 3) && (s.deq.HeadRead? <==> DequeueLeft(s) == 4)
  {
  }

  lemma SameEnqueue<T>(s: State<T>)
    ensures EnqueueLeft(BeginDequeue(s)) == EnqueueLeft(s)
  {
  }

  lemma SameDequeue<T>(s: State<T>, event: T)
    ensures DequeueLeft(BeginEnqueue(s, event)) == DequeueLeft(s)
  {
  }

  /** A step gets the consumer on, unless it has found the queue empty: then everything accepted is delivered. */
  lemma PollsAdvance<T>(w: World<T>, step: Step<T>, size: nat)
    requires WorldInv(w, size) && Enabled(w, step)
    ensures var w' := Next(w, step);
            && w.ring.accepted <= w'.ring.accepted && w.delivered <= w'.delivered
            && (w'.delivered == w'.ring.accepted || Polls(w') >= Polls(w) + if Consumes(step) then 1 else 0)
  {
    assert w.ring.size > 0;
    hide Inv, Queue, StepEnqueue, StepDequeue, Linearized, DequeueLeft;
    match step
    case EnqueueStep =>
      StepEnqueueInv(w.ring);
      EnqueueAdvances(w.ring);
    case DequeueStep => DequeueStepAdvances(w, size);
    case PushEvent(event) => SameDequeue(w.ring, event);
    case EnterDequeue => Phases(BeginDequeue(w.ring));
    case LoadTail => AllTaken(w, size);
    case _ =>
  }

  lemma DequeueStepAdvances<T>(w: World<T>, size: nat)
    requires WorldInv(w, size) && w.consumer == Dequeuing
    ensures var w' := Next(w, DequeueStep);
            w'.ring.accepted == w.ring.accepted && w'.delivered == w.delivered && Polls(w') == Polls(w) + 1
  {
    assert w.ring.size > 0;
    hide Inv, Queue, StepDequeue, Linearized, DequeueLeft, WorldInv, LeavesDequeue, Returning;
    var s := w.ring;
    DequeuePc(s);
    DequeueAdvances(s);
    Phases(s);
    Phases(StepDequeue(s));
  }

  lemma AllTaken<T>(w: World<T>, size: nat)
    requires WorldInv(w, size) && w.consumer.HeadLoaded?
    ensures Next(w, LoadTail).consumer == Polled(None) ==> w.delivered == w.ring.accepted
  {
    hide Linearized;
    GuardIsExact(w, size);
    if Queue(w.ring) == [] {
      assert w.ring.accepted == w.ring.taken + Queue(w.ring);
    }
  }

  /**
   * Over every interleaving, from any moment on: each event offered is answered once the producer has
   * taken three more steps, whatever the consumer does; so many steps, so many answers.
   */
  lemma EventsAreAnswered<T(!new)>(worlds: seq<World<T>>, size: nat, k: nat, steps: seq<Step<T>>)
    requires size > 1 && IsRun(worlds, size) && k < |worlds| && Schedule(Threads(size), worlds[k], steps)
    ensures var w, w' := worlds[k], After(Threads(size), worlds[k], steps);
            && (w.pushing && Count(steps, (s: Step<T>) => Produces(s)) >= 3 ==> |w'.answers| > |w.answers|)
            && Count(steps, (s: Step<T>) => Produces(s)) <= 4 * (|w'.answers| - |w.answers|) + 3
  {
    RunInv(worlds, size, k);
    hide IsRun, WorldInv, Next, Enabled, Schedule, After, Start;
    var m := Threads<T>(size);
    var inv, own := (w: World<T>) => WorldInv(w, size), (s: Step<T>) => Produces(s);
    var goal, measure := (w: World<T>) => false, (w: World<T>) => Pushes(w);
    forall w, step | inv(w) && m.can(w, step)
      ensures inv(m.next(w, step)) && measure(m.next(w, step)) >= measure(w) + if own(step) then 1 else 0
    {
      WorldStepInv(w, step, size);
      PushesAdvance(w, step, size);
    }
    Progress(m, worlds[k], steps, inv, goal, own, measure);
    PushesBounds(worlds[k], size);
    PushesBounds(After(m, worlds[k], steps), size);
  }

  lemma PushesBounds<T>(w: World<T>, size: nat)
    requires WorldInv(w, size)
    ensures 4 * |w.answers| + (if w.pushing then 1 else 0) <= Pushes(w) <= 4 * |w.answers| + 3
  {
    hide Inv, Linearized;
    Phases(w.ring);
  }

  lemma PollsBounds<T>(w: World<T>, size: nat)
    requires WorldInv(w, size)
    ensures 8 * |w.delivered| - 1 <= Polls(w) <= 8 * |w.delivered| + 7
  {
    hide Inv, Linearized;
    Phases(w.ring);
  }

  /**
   * Over every interleaving, from any moment on: what has been accepted by then is delivered, in its
   * order, once the consumer has taken eight steps for each of these events and one more, whatever
   * the producer does.
   */
  lemma EventsAreDelivered<T(!new)>(worlds: seq<World<T>>, size: nat, k: nat, steps: seq<Step<T>>)
    requires size > 1 && IsRun(worlds, size) && k < |worlds| && Schedule(Threads(size), worlds[k], steps)
    requires var w := worlds[k];
             Count(steps, (s: Step<T>) => Consumes(s)) > 8 * (|w.ring.accepted| - |w.delivered|)
    ensures worlds[k].ring.accepted <= After(Threads(size), worlds[k], steps).delivered
  {
    RunInv(worlds, size, k);
    hide IsRun, WorldInv, Next, Enabled, Schedule, After, Start;
    var w0, m := worlds[k], Threads<T>(size);
    var inv := (w: World<T>) => WorldInv(w, size) && w0.ring.accepted <= w.ring.accepted;
    var goal := (w: World<T>) => w0.ring.accepted <= w.delivered;
    var own, measure := (s: Step<T>) => Consumes(s), (w: World<T>) => Polls(w);
    forall w, step | inv(w) && m.can(w, step)
      ensures var w' := m.next(w, step);
              && inv(w') && (goal(w) ==> goal(w'))
              && (goal(w') || measure(w') >= measure(w) + if own(step) then 1 else 0)
    {
      WorldStepInv(w, step, size);
      PollsAdvance(w, step, size);
    }
    Progress(m, w0, steps, inv, goal, own, measure);
    var w' := After(m, w0, steps);
    PollsBounds(w0, size);
    PollsBounds(w', size);
    DeliveredInOrder(w', size);
  }

  lemma DeliveredInOrder<T>(w: World<T>, size: nat)
    requires WorldInv(w, size)
    ensures w.delivered <= w.ring.taken <= w.ring.accepted
  {
    hide Linearized;
  }
}
