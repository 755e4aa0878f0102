/**
 * The manager's `order` and a worker's `threadEventProcess`: commands travel through a ring, and a
 * byte in a pipe wakes the worker once for each.
 */
module WorkerProtocol {
  import opened Options
  import opened Ring
  import opened RingSteps
  import opened Runs

  datatype Manager = Idle | Enqueuing | Waking

  datatype Worker<T> =
    | Polling
    | Woken // a wake byte has been read
    | Dequeuing
    | Processing(p: Option<T>)
    | Crashed

  datatype World<T> = World(
    ring: State<T>,
    pipe: nat, // wake bytes written and not yet read
    manager: Manager,
    worker: Worker<T>,
    answers: seq<bool>, // what order() has returned so far
    executed: seq<T>,
    unwoken: nat) // commands whose wake byte could not be written

  function Start<T>(size: nat): World<T>
  {
    World(Initial(size), 0, Idle, Polling, [], [], 0)
  }

  /** Every step either thread can take; reading an empty pipe changes nothing and is no step. */
  datatype Step<T> =
    | Order(command: T) // order() is called with a non-null command
    | EnqueueStep
    | Wake(written: bool)
    | ReadByte
    | EnterDequeue
    | DequeueStep
    | Process

  predicate Enabled<T>(w: World<T>, step: Step<T>)
  {
    match step
    case Order(_) => w.manager == Idle
    case EnqueueStep => w.manager == Enqueuing
    case Wake(_) => w.manager == Waking
    case ReadByte => w.worker == Polling && w.pipe > 0
    case EnterDequeue => w.worker == Woken
    case DequeueStep => w.worker == Dequeuing
    case Process => w.worker.Processing?
  }

  function Next<T>(w: World<T>, step: Step<T>): World<T>
    requires w.ring.size > 0 && Enabled(w, step)
  {
    match step
    case Order(command) => w.(ring := BeginEnqueue(w.ring, command), manager := Enqueuing)
    case EnqueueStep =>
      w.(ring := StepEnqueue(w.ring),
         manager := if EnqueueAccepts(w.ring) then Waking else if EnqueueRefuses(w.ring) then Idle else Enqueuing,
         answers := if EnqueueRefuses(w.ring) then w.answers + [false] else w.answers)
    case Wake(written) =>
      var w' := w.(manager := Idle, answers := w.answers + [true]);
      if written then w'.(pipe := w.pipe + 1) else w'.(unwoken := w.unwoken + 1)
    case ReadByte => w.(pipe := w.pipe - 1, worker := Woken)
    case EnterDequeue => w.(ring := BeginDequeue(w.ring), worker := Dequeuing)
    case DequeueStep =>
      w.(ring := StepDequeue(w.ring),
         worker := if LeavesDequeue(w.ring) then Processing(Returning(w.ring)) else Dequeuing)
    case Process =>
      // the type of a null event cannot be asked for
      if w.worker.p.Some? then w.(executed := w.executed + [w.worker.p.value], worker := Polling)
      else w.(worker := Crashed)
  }

  // ---------- the invariant ----------

  /** Wake bytes read whose command has not been taken from the ring yet. */
  function Pending<T>(w: World<T>): nat { if w.worker.Woken? || w.worker.Dequeuing? then 1 else 0 }

  /** A command published whose wake byte the manager is about to write. */
  function Unsent<T>(w: World<T>): nat { if w.manager == Waking then 1 else 0 }

  /**
   * Each queued command is accounted for by exactly one wake: in the pipe, read, about to be
   * written, or failed.
   */
  ghost predicate Balanced<T>(w: World<T>)
  {
    w.pipe + Pending(w) + Unsent(w) + w.unwoken == |Queue(w.ring)|
  }

  ghost predicate WorldInv<T>(w: World<T>, size: nat)
  {
    && Inv(w.ring) && w.ring.size == size
    && Balanced(w)
    && Trues(w.answers) + Unsent(w) == |w.ring.accepted|
    && (w.manager == Enqueuing <==> w.ring.enq != NotEnqueuing)
    && (w.worker == Dequeuing <==> w.ring.deq != NotDequeuing)
    && !w.worker.Crashed?
    && (w.worker.Processing? ==> w.worker.p.Some?)
    && w.ring.taken == w.executed + if w.worker.Processing? then [w.worker.p.value] else []
  }

  lemma StartInv<T>(size: nat)
    requires size > 1
    ensures WorldInv(Start<T>(size), size)
  {
  }

  lemma WorldStepInv<T>(w: World<T>, step: Step<T>, size: nat)
    requires WorldInv(w, size) && Enabled(w, step)
    ensures WorldInv(Next(w, step), size)
  {
    hide WorldInv, Next;
    match step
    case Order(command) => OrderInv(w, command, size);
    case EnqueueStep => EnqueueStepInv(w, size);
    case Wake(written) => WakeInv(w, written, size);
    case ReadByte => ReadByteInv(w, size);
    case EnterDequeue => EnterDequeueInv(w, size);
    case DequeueStep => DequeueStepInv(w, size);
    case Process => ProcessInv(w, size);
  }

  lemma OrderInv<T>(w: World<T>, command: T, size: nat)
    requires WorldInv(w, size) && w.manager == Idle
    ensures WorldInv(Next(w, Order(command)), size)
  {
    assert w.ring.size > 0;
    hide Inv, Queue, Trues;
    BeginEnqueueInv(w.ring, command);
    SameQueue(w.ring, BeginEnqueue(w.ring, command));
  }

  lemma EnqueueStepInv<T>(w: World<T>, size: nat)
    requires WorldInv(w, size) && w.manager == Enqueuing
    ensures WorldInv(Next(w, EnqueueStep), size)
  {
    assert w.ring.size > 0;
    NotBoth(w.ring);
    hide StepEnqueue, Inv, Queue, Trues, EnqueueAccepts, EnqueueRefuses;
    EnqueuePc(w.ring);
    StepEnqueueInv(w.ring);
    TruesSnoc(w.answers, false);
  }

  lemma NotBoth<T>(s: State<T>)
    requires s.size > 0
    ensures !(EnqueueAccepts(s) && EnqueueRefuses(s))
  {
  }

  lemma WakeInv<T>(w: World<T>, written: bool, size: nat)
    requires WorldInv(w, size) && w.manager == Waking
    ensures WorldInv(Next(w, Wake(written)), size)
  {
    assert w.ring.size > 0;
    hide Inv, Queue, Trues;
    TruesSnoc(w.answers, true);
  }

  lemma ReadByteInv<T>(w: World<T>, size: nat)
    requires WorldInv(w, size) && w.worker == Polling && w.pipe > 0
    ensures WorldInv(Next(w, ReadByte), size)
  {
    assert w.ring.size > 0;
    hide Inv, Queue, Trues;
  }

  lemma EnterDequeueInv<T>(w: World<T>, size: nat)
    requires WorldInv(w, size) && w.worker == Woken
    ensures WorldInv(Next(w, EnterDequeue), size)
  {
    assert w.ring.size > 0;
    hide Inv, Queue, Trues;
    BeginDequeueInv(w.ring);
    SameQueue(w.ring, BeginDequeue(w.ring));
  }

  lemma DequeueStepInv<T>(w: World<T>, size: nat)
    requires WorldInv(w, size) && w.worker == Dequeuing
    ensures WorldInv(Next(w, DequeueStep), size)
  {
    assert w.ring.size > 0;
    assert w.executed + [] == w.executed;
    hide StepDequeue, Inv, Queue, Trues, LeavesDequeue, Returning;
    DequeueEffect(w.ring);
  }

  /** One step of a dequeue: the oldest item is taken when it leaves, and nothing before. */
  lemma DequeueEffect<T>(s: State<T>)
    requires Inv(s) && s.deq != NotDequeuing
    ensures var s' := StepDequeue(s);
            && Inv(s') && s'.enq == s.enq && s'.accepted == s.accepted && s'.size == s.size
            && (s'.deq == NotDequeuing <==> LeavesDequeue(s))
            && if LeavesDequeue(s)
               then && Returning(s).Some? && s'.taken == s.taken + [Returning(s).value]
                    && |Queue(s')| == |Queue(s)| - 1
               else s'.taken == s.taken && |Queue(s')| == |Queue(s)|
  {
    hide StepDequeue, Inv, Queue;
    DequeuePc(s);
    DequeueAdvances(s);
    StepDequeueInv(s);
  }

  lemma ProcessInv<T>(w: World<T>, size: nat)
    requires WorldInv(w, size) && w.worker.Processing?
    ensures WorldInv(Next(w, Process), size)
  {
    assert w.ring.size > 0;
    hide Inv, Queue, Trues;
  }

  // ---------- every interleaving ----------

  /** The two threads as one machine. */
  ghost function Threads<T>(size: nat): Machine<World<T>, Step<T>>
  {
    Machine(Start(size), (w: World<T>, step: Step<T>) => w.ring.size > 0 && Enabled(w, step),
            (w: World<T>, step: Step<T>) requires w.ring.size > 0 && Enabled(w, step) => Next(w, step))
  }

  ghost predicate IsRun<T(!new)>(worlds: seq<World<T>>, size: nat) { Runs.IsRun(Threads(size), worlds) }

  lemma RunInv<T(!new)>(worlds: seq<World<T>>, size: nat, k: nat)
    requires size > 1 && IsRun(worlds, size) && k < |worlds|
    ensures WorldInv(worlds[k], size)
  {
    hide WorldInv, Next, Enabled, Start;
    var m, inv := Threads<T>(size), (w: World<T>) => WorldInv(w, size);
    StartInv<T>(size);
    forall w, step | inv(w) && m.can(w, step) ensures inv(m.next(w, step)) {
      WorldStepInv(w, step, size);
    }
    RunKeeps(m, worlds, inv, k);
  }

  /**
   * Over every interleaving: the wakes outstanding never exceed the queue, `dequeue` never hands
   * the worker a null event, the executed commands are a prefix of the accepted ones, the ring never
   * holds more than size - 1 of them, and `order` has answered true once for each, but for the one
   * whose wake byte it is about to write.
   */
  lemma WorkerSafety<T(!new)>(worlds: seq<World<T>>, size: nat, k: nat)
    requires size > 1 && IsRun(worlds, size) && k < |worlds|
    ensures var w := worlds[k];
            && w.pipe + Pending(w) <= |Queue(w.ring)| <= size - 1
            && !w.worker.Crashed? && (w.worker.Processing? ==> w.worker.p.Some?)
            && w.executed <= w.ring.accepted && Trues(w.answers) + Unsent(w) == |w.ring.accepted|
  {
    hide IsRun, Threads;
    RunInv(worlds, size, k);
  }

  /** If no pipe write has failed, a worker at rest with an empty pipe has nothing left to do. */
  lemma NothingForgotten<T(!new)>(worlds: seq<World<T>>, size: nat, k: nat)
    requires size > 1 && IsRun(worlds, size) && k < |worlds|
    ensures var w := worlds[k];
            w.worker == Polling && w.pipe == 0 && w.manager != Waking ==>
            (w.unwoken == 0 <==> w.executed == w.ring.accepted)
  {
    hide IsRun, Threads;
    RunInv(worlds, size, k);
    var w := worlds[k];
    if w.worker == Polling && w.pipe == 0 && w.manager != Waking {
      assert w.ring.accepted == w.ring.taken + Queue(w.ring);
    }
  }

  // ---------- progress ----------

  predicate Orders<T>(step: Step<T>) { step.Order? || step.EnqueueStep? || step.Wake? }

  predicate Works<T>(step: Step<T>) { !Orders(step) }

  /** The worker's next step, when it has one. */
  function NextWorking<T>(w: World<T>): Option<Step<T>>
  {
    match w.worker
    case Polling => if w.pipe > 0 then Some(ReadByte) else None
    case Woken => Some(EnterDequeue)
    case Dequeuing => Some(DequeueStep)
    case Processing(_) => Some(Process)
    case Crashed => None
  }

  /** The worker serving a wake byte it has read. */
  function Busy<T>(w: World<T>): nat { if w.worker == Polling then 0 else 1 }

  /** The manager never has to wait for a worker, and the worker only for a wake byte. */
  lemma OnlyForAByte<T>(w: World<T>, size: nat, command: T)
    requires WorldInv(w, size)
    ensures Enabled(w, match w.manager
                       case Idle => Order(command)
                       case Enqueuing => EnqueueStep
                       case Waking => Wake(true))
    ensures if w.worker == Polling && w.pipe == 0 then NextWorking(w) == None
            else NextWorking(w).Some? && Enabled(w, NextWorking(w).value) && Works(NextWorking(w).value)
  {
    hide Inv, Balanced;
  }

  /** How far the manager has got: five steps at most for each answer of `order`. */
  function Ordered<T>(w: World<T>): int
  {
    5 * |w.answers| +
    match w.manager
    case Idle => 0
    case Enqueuing => 4 - EnqueueLeft(w.ring)
    case Waking => 4
  }

  /** How far the worker has got: seven steps for each command. */
  function Worked<T>(w: World<T>): int
  {
    7 * |w.executed| +
    match w.worker
    case Polling => 0
    case Woken => 1
    case Dequeuing => 6 - DequeueLeft(w.ring)
    case Processing(_) => 6
    case Crashed => 7
  }

  lemma Phases<T>(s: State<T>)
    ensures EnqueueLeft(s) <= 3 && DequeueLeft(s) <= 4
    ensures (EnqueueLeft(s) == 0 <==> s.enq == NotEnqueuing) && (DequeueLeft(s) == 0 <==> s.deq == NotDequeuing)
  {
  }

  lemma Offered<T>(s: State<T>, command: T)
    ensures EnqueueLeft(BeginEnqueue(s, command)) == 3 && DequeueLeft(BeginEnqueue(s, command)) == DequeueLeft(s)
  {
  }

  lemma Entered<T>(s: State<T>)
    ensures EnqueueLeft(BeginDequeue(s)) == EnqueueLeft(s) && DequeueLeft(BeginDequeue(s)) == 4
  {
  }

  /** Each step gets its own thread on, and no thread back; a written wake byte is read by one command. */
  lemma WorldAdvances<T>(w: World<T>, step: Step<T>, size: nat)
    requires WorldInv(w, size) && Enabled(w, step)
    ensures var w' := Next(w, step);
            && Ordered(w') >= Ordered(w) + (if Orders(step) then 1 else 0)
            && Worked(w') == Worked(w) + (if Works(step) then 1 else 0)
            && w'.pipe + Busy(w') + |w'.executed|
               == w.pipe + Busy(w) + |w.executed| + (if step == Wake(true) then 1 else 0)
            && w.ring.accepted <= w'.ring.accepted
  {
    assert w.ring.size > 0;
    hide Inv, Queue, EnqueueLeft, DequeueLeft;
    match step
    case Order(command) => Offered(w.ring, command);
    case EnqueueStep => EnqueueStepAdvances(w, size);
    case Wake(_) =>
    case ReadByte =>
    case EnterDequeue => Entered(w.ring);
    case DequeueStep => DequeueStepAdvances(w, size);
    case Process =>
  }

  /** What one step leaves to the thread that does not take it. */
  lemma EnqueueStepAdvances<T>(w: World<T>, size: nat)
    requires WorldInv(w, size) && w.manager == Enqueuing
    ensures var w' := Next(w, EnqueueStep);
            && Ordered(w') >= Ordered(w) + 1 && Worked(w') == Worked(w)
            && w.ring.accepted <= w'.ring.accepted && w'.worker == w.worker && w'.executed == w.executed
  {
    assert w.ring.size > 0;
    var s := w.ring;
    NotBoth(s);
    hide StepEnqueue, Inv, Queue, EnqueueLeft, DequeueLeft, WorldInv, EnqueueAccepts, EnqueueRefuses;
    EnqueuePc(s);
    StepEnqueueInv(s);
    EnqueueAdvances(s);
    Phases(s);
    Phases(StepEnqueue(s));
  }

  lemma DequeueStepAdvances<T>(w: World<T>, size: nat)
    requires WorldInv(w, size) && w.worker == Dequeuing
    ensures var w' := Next(w, DequeueStep);
            && Ordered(w') == Ordered(w) && Worked(w') == Worked(w) + 1
            && w'.ring.accepted == w.ring.accepted && w'.worker != Polling && w'.executed == w.executed
  {
    assert w.ring.size > 0;
    hide StepDequeue, Inv, Queue, EnqueueLeft, DequeueLeft, WorldInv, LeavesDequeue, Returning;
    var s := w.ring;
    DequeuePc(s);
    DequeueAdvances(s);
    Phases(s);
    Phases(StepDequeue(s));
  }

  lemma WorkedBounds<T>(w: World<T>, size: nat)
    requires WorldInv(w, size)
    ensures 7 * |w.executed| + Busy(w) <= Worked(w) <= 7 * |w.executed| + 6
    ensures 5 * |w.answers| + (if w.manager == Idle then 0 else 1) <= Ordered(w) <= 5 * |w.answers| + 4
  {
    hide Inv, Balanced;
    Phases(w.ring);
  }

  /**
   * Over every interleaving, from any moment on: every call of `order` has returned once the manager
   * has taken four more steps, whatever the worker does; so many steps, so many answers.
   */
  lemma OrdersReturn<T(!new)>(worlds: seq<World<T>>, size: nat, k: nat, steps: seq<Step<T>>)
    requires size > 1 && IsRun(worlds, size) && k < |worlds| && Schedule(Threads(size), worlds[k], steps)
    ensures var w, w' := worlds[k], After(Threads(size), worlds[k], steps);
            && (w.manager != Idle && Count(steps, (s: Step<T>) => Orders(s)) >= 4 ==> |w'.answers| > |w.answers|)
            && Count(steps, (s: Step<T>) => Orders(s)) <= 5 * (|w'.answers| - |w.answers|) + 4
  {
    RunInv(worlds, size, k);
    hide IsRun, WorldInv, Next, Enabled, Schedule, After, Start;
    var m := Threads<T>(size);
    var inv, own := (w: World<T>) => WorldInv(w, size), (s: Step<T>) => Orders(s);
    var goal, measure := (w: World<T>) => false, (w: World<T>) => Ordered(w);
    forall w, step | inv(w) && m.can(w, step)
      ensures inv(m.next(w, step)) && measure(m.next(w, step)) >= measure(w) + if own(step) then 1 else 0
    {
      WorldStepInv(w, step, size);
      WorldAdvances(w, step, size);
    }
    Progress(m, worlds[k], steps, inv, goal, own, measure);
    WorkedBounds(worlds[k], size);
    WorkedBounds(After(m, worlds[k], steps), size);
  }

  /** The worker gets on with every step it takes, and accepted commands stay accepted. */
  lemma WorkerAdvances<T(!new)>(worlds: seq<World<T>>, size: nat, k: nat, steps: seq<Step<T>>)
    requires size > 1 && IsRun(worlds, size) && k < |worlds| && Schedule(Threads(size), worlds[k], steps)
    ensures var w, w' := worlds[k], After(Threads(size), worlds[k], steps);
            && Worked(w') >= Worked(w) + Count(steps, (s: Step<T>) => Works(s))
            && w.ring.accepted <= w'.ring.accepted && WorldInv(w', size)
  {
    RunInv(worlds, size, k);
    hide IsRun, WorldInv, Next, Enabled, Schedule, After, Start;
    var w0, m := worlds[k], Threads<T>(size);
    var inv := (w: World<T>) => WorldInv(w, size) && w0.ring.accepted <= w.ring.accepted;
    var own, goal, measure := (s: Step<T>) => Works(s), (w: World<T>) => false, (w: World<T>) => Worked(w);
    forall w, step | inv(w) && m.can(w, step)
      ensures inv(m.next(w, step)) && measure(m.next(w, step)) >= measure(w) + if own(step) then 1 else 0
    {
      WorldStepInv(w, step, size);
      WorldAdvances(w, step, size);
    }
    Progress(m, w0, steps, inv, goal, own, measure);
  }

  /**
   * Over every interleaving, from any moment on: each wake byte written by then has led to one more
   * executed command once the worker has taken seven steps for each, whatever the manager does.
   */
  lemma WakesAreServed<T(!new)>(worlds: seq<World<T>>, size: nat, k: nat, steps: seq<Step<T>>)
    requires size > 1 && IsRun(worlds, size) && k < |worlds| && Schedule(Threads(size), worlds[k], steps)
    requires Count(steps, (s: Step<T>) => Works(s)) >= 7 * (worlds[k].pipe + Busy(worlds[k]))
    ensures var w, w' := worlds[k], After(Threads(size), worlds[k], steps);
            |w'.executed| >= |w.executed| + w.pipe + Busy(w)
  {
    WorkerAdvances(worlds, size, k, steps);
    RunInv(worlds, size, k);
    hide IsRun, WorldInv, Next, Enabled, Schedule, After, Worked;
    WorkedBounds(worlds[k], size);
    WorkedBounds(After(Threads(size), worlds[k], steps), size);
  }

  /**
   * And as long as no wake write has failed and none is in progress, that is every command accepted
   * by then: they are executed, in their order.
   */
  lemma CommandsAreExecuted<T(!new)>(worlds: seq<World<T>>, size: nat, k: nat, steps: seq<Step<T>>)
    requires size > 1 && IsRun(worlds, size) && k < |worlds| && Schedule(Threads(size), worlds[k], steps)
    requires worlds[k].unwoken == 0 && worlds[k].manager != Waking
    requires var w := worlds[k];
             Count(steps, (s: Step<T>) => Works(s)) >= 7 * (|w.ring.accepted| - |w.executed|)
    ensures worlds[k].ring.accepted <= After(Threads(size), worlds[k], steps).executed
  {
    RunInv(worlds, size, k);
    WorkerAdvances(worlds, size, k, steps);
    var w, w' := worlds[k], After(Threads(size), worlds[k], steps);
    Outstanding(w, size);
    hide IsRun, WorldInv, Next, Enabled, Schedule, After, Worked;
    WakesAreServed(worlds, size, k, steps);
    ExecutedInOrder(w', size);
  }

  /** Without a failed or pending wake write, the bytes written and the commands outstanding are as many. */
  lemma Outstanding<T>(w: World<T>, size: nat)
    requires WorldInv(w, size) && w.unwoken == 0 && w.manager != Waking
    ensures |w.ring.accepted| == |w.executed| + w.pipe + Busy(w)
  {
  }

  lemma ExecutedInOrder<T>(w: World<T>, size: nat)
    requires WorldInv(w, size)
    ensures w.executed <= w.ring.accepted
  {
  }
}
