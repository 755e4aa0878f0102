/**
 * The ring buffer shared by one producer and one consumer, every shared read or write one step,
 * under sequential consistency. The producer and the consumer of a protocol drive these steps.
 */
module RingSteps {
  import opened Options
  import opened Ring

  /** Where the producer stands inside `enqueue`. */
  datatype Enqueue<T> =
    | NotEnqueuing
    | TailRead(item: T, tailOld: nat)
    | RoomSeen(item: T, tailOld: nat)
    | SlotWritten(item: T, tailOld: nat)

  /** Where the consumer stands inside `dequeue`. */
  datatype Dequeue<T> =
    | NotDequeuing
    | HeadRead(headOld: nat)
    | SlotRead(headOld: nat, p: Option<T>)
    | TailTested(headOld: nat, p: Option<T>)
    | SlotCleared(headOld: nat, p: Option<T>)

  /** The shared fields, the two program counters, and the history of accepted and taken items. */
  datatype State<T> = State(
    size: nat,
    slots: seq<Option<T>>,
    head: nat,
    tail: nat,
    enq: Enqueue<T>,
    deq: Dequeue<T>,
    accepted: seq<T>,
    taken: seq<T>)

  function Initial<T>(size: nat): State<T>
  {
    State(size, seq(size, _ => None), 0, 0, NotEnqueuing, NotDequeuing, [], [])
  }

  // ---------- enqueue ----------

  function BeginEnqueue<T>(s: State<T>, item: T): State<T> { s.(enq := TailRead(item, s.tail)) }

  /** The next step of a running enqueue. */
  function StepEnqueue<T>(s: State<T>): State<T>
    requires s.size > 0
  {
    match s.enq
    case NotEnqueuing => s
    case TailRead(item, tailOld) =>
      if NextSlot(tailOld, s.size) == s.head then s.(enq := NotEnqueuing) else s.(enq := RoomSeen(item, tailOld))
    case RoomSeen(item, tailOld) =>
      if tailOld < |s.slots| then s.(slots := s.slots[tailOld := Some(item)], enq := SlotWritten(item, tailOld)) else s
    case SlotWritten(item, tailOld) =>
      s.(tail := NextSlot(tailOld, s.size), enq := NotEnqueuing, accepted := s.accepted + [item])
  }

  // ---------- dequeue ----------

  function BeginDequeue<T>(s: State<T>): State<T> { s.(deq := HeadRead(s.head)) }

  /** The next step of a running dequeue. */
  function StepDequeue<T>(s: State<T>): State<T>
    requires s.size > 0
  {
    match s.deq
    case NotDequeuing => s
    case HeadRead(headOld) =>
      if headOld < |s.slots| then s.(deq := SlotRead(headOld, s.slots[headOld])) else s
    case SlotRead(headOld, p) =>
      if headOld == s.tail then s.(deq := NotDequeuing) else s.(deq := TailTested(headOld, p))
    case TailTested(headOld, p) =>
      if headOld < |s.slots| then s.(slots := s.slots[headOld := None], deq := SlotCleared(headOld, p)) else s
    case SlotCleared(headOld, p) =>
      s.(head := NextSlot(headOld, s.size), deq := NotDequeuing,
         taken := if p.Some? then s.taken + [p.value] else s.taken)
  }

  /** What `dequeue` is about to return, at the step that leaves it. */
  function Returning<T>(s: State<T>): Option<T>
  {
    match s.deq
    case SlotCleared(_, p) => p
    case _ => None
  }

  /** Whether the next dequeue step leaves `dequeue`. */
  predicate LeavesDequeue<T>(s: State<T>)
  {
    match s.deq
    case SlotRead(headOld, _) => headOld == s.tail
    case SlotCleared(_, _) => true
    case _ => false
  }

  /** Whether the next enqueue step leaves `enqueue`, and with which answer. */
  predicate EnqueueAccepts<T>(s: State<T>) { s.enq.SlotWritten? }

  predicate EnqueueRefuses<T>(s: State<T>)
    requires s.size > 0
  {
    s.enq.TailRead? && NextSlot(s.enq.tailOld, s.size) == s.head
  }

  // ---------- the invariant ----------

  /** The items accepted and not yet taken. */
  function Queue<T>(s: State<T>): seq<T>
  {
    if |s.taken| <= |s.accepted| then s.accepted[|s.taken|..] else []
  }

  /** The consumer only ever enters `dequeue` with something in the queue. */
  ghost predicate DequeueOk<T>(s: State<T>)
  {
    match s.deq
    case NotDequeuing => true
    case HeadRead(headOld) => headOld == s.head && Queue(s) != []
    case SlotRead(headOld, p) => headOld == s.head && Queue(s) != [] && p == Some(Queue(s)[0])
    case TailTested(headOld, p) => headOld == s.head && Queue(s) != [] && p == Some(Queue(s)[0])
    case SlotCleared(headOld, p) => headOld == s.head && Queue(s) != [] && p == Some(Queue(s)[0])
  }

  ghost predicate EnqueueOk<T>(s: State<T>)
    requires |s.slots| == s.size
  {
    match s.enq
    case NotEnqueuing => true
    case TailRead(_, tailOld) => tailOld == s.tail
    case RoomSeen(_, tailOld) => tailOld == s.tail && |Queue(s)| < s.size - 1
    case SlotWritten(item, tailOld) =>
      tailOld == s.tail && |Queue(s)| < s.size - 1 && tailOld < s.size && s.slots[tailOld] == Some(item)
  }

  /** The slots from the head on hold the queue, but for its first `from` items. */
  ghost predicate Window<T>(slots: seq<Option<T>>, head: nat, q: seq<T>, from: nat)
    requires head < |slots| && |q| < |slots|
  {
    forall i | from <= i < |q| :: slots[Slot(head, i, |slots|)] == Some(q[i])
  }

  /** Taken items are a prefix of the accepted ones, and the slots from head to tail hold the rest. */
  ghost predicate Inv<T>(s: State<T>)
  {
    && 1 < s.size == |s.slots| && s.head < s.size
    && s.taken <= s.accepted
    && |Queue(s)| < s.size
    && s.tail == Slot(s.head, |Queue(s)|, s.size)
    && Window(s.slots, s.head, Queue(s), if s.deq.SlotCleared? then 1 else 0)
    && EnqueueOk(s) && DequeueOk(s)
  }

  lemma BeginEnqueueInv<T>(s: State<T>, item: T)
    requires Inv(s) && s.enq == NotEnqueuing
    ensures Inv(BeginEnqueue(s, item))
  {
  }

  /** Entering `dequeue` is safe exactly because the queue is not empty. */
  lemma BeginDequeueInv<T>(s: State<T>)
    requires Inv(s) && s.deq == NotDequeuing
    ensures Inv(BeginDequeue(s)) <==> Queue(s) != []
  {
  }

  lemma SlotNext(head: nat, k: nat, n: nat)
    requires head < n && k < n
    ensures Slot(Slot(head, k, n), 1, n) == Slot(head, k + 1, n)
  {
  }

  lemma SlotsDiffer(head: nat, i: nat, j: nat, n: nat)
    requires head < n && i < j < n
    ensures Slot(head, i, n) != Slot(head, j, n)
  {
  }

  /** Writing the slot behind the queue, or emptying the one at its head, leaves the rest of the window. */
  lemma WindowKept<T>(slots: seq<Option<T>>, head: nat, q: seq<T>, from: nat, k: nat, x: Option<T>)
    requires head < |slots| && |q| < |slots| && k <= |q| && (k == |q| || k < from) && Window(slots, head, q, from)
    ensures Window(slots[Slot(head, k, |slots|) := x], head, q, from)
  {
    forall i | from <= i < |q| ensures slots[Slot(head, k, |slots|) := x][Slot(head, i, |slots|)] == Some(q[i]) {
      if i < k {
        SlotsDiffer(head, i, k, |slots|);
      } else {
        SlotsDiffer(head, k, i, |slots|);
      }
    }
  }

  lemma WindowGrows<T>(slots: seq<Option<T>>, head: nat, q: seq<T>, from: nat, item: T)
    requires head < |slots| && |q| + 1 < |slots| && Window(slots, head, q, from)
    requires slots[Slot(head, |q|, |slots|)] == Some(item)
    ensures Window(slots, head, q + [item], from)
  {
  }

  lemma WindowShrinks<T>(slots: seq<Option<T>>, head: nat, q: seq<T>)
    requires head < |slots| && 0 < |q| < |slots| && Window(slots, head, q, 1)
    ensures Window(slots, Slot(head, 1, |slots|), q[1..], 0)
  {
    forall i | 0 <= i < |q| - 1 ensures slots[Slot(Slot(head, 1, |slots|), i, |slots|)] == Some(q[1..][i]) {
      SlotShift(head, i, |slots|);
    }
  }

  /** The step that writes the slot behind the queue. */
  lemma WriteSlotInv<T>(s: State<T>)
    requires Inv(s) && s.enq.RoomSeen?
    ensures Inv(StepEnqueue(s))
  {
    hide Slot, Window;
    var q := Queue(s);
    WindowKept(s.slots, s.head, q, if s.deq.SlotCleared? then 1 else 0, |q|, Some(s.enq.item));
  }

  lemma QueueGrows<T>(accepted: seq<T>, taken: seq<T>, item: T)
    requires taken <= accepted
    ensures taken <= accepted + [item] && (accepted + [item])[|taken|..] == accepted[|taken|..] + [item]
  {
  }

  /** The step that publishes the item by moving the tail. */
  lemma PublishInv<T>(s: State<T>)
    requires Inv(s) && s.enq.SlotWritten?
    ensures Inv(StepEnqueue(s)) && Queue(StepEnqueue(s)) == Queue(s) + [s.enq.item]
  {
    var q := Queue(s);
    NextSlotIs(s.tail, s.size);
    SlotNext(s.head, |q|, s.size);
    QueueGrows(s.accepted, s.taken, s.enq.item);
    assert Queue(StepEnqueue(s)) == q + [s.enq.item];
    hide Slot, NextSlot, Window, Queue;
    WindowGrows(s.slots, s.head, q, if s.deq.SlotCleared? then 1 else 0, s.enq.item);
    if q != [] {
      SameFront(q, s.enq.item);
    }
  }

  lemma SameFront<T>(q: seq<T>, item: T)
    requires q != []
    ensures (q + [item])[0] == q[0]
  {
  }

  lemma StepEnqueueInv<T>(s: State<T>)
    requires Inv(s)
    ensures var s' := StepEnqueue(s);
            && Inv(s') && s'.deq == s.deq && s'.taken == s.taken && s'.size == s.size
            && Queue(s') == (if EnqueueAccepts(s) then Queue(s) + [s.enq.item] else Queue(s))
            && s'.accepted == if EnqueueAccepts(s) then s.accepted + [s.enq.item] else s.accepted
    ensures EnqueueRefuses(s) <==> s.enq.TailRead? && |Queue(s)| == s.size - 1
  {
    NextSlotIs(s.tail, s.size);
    hide NextSlot;
    if s.enq.SlotWritten? {
      PublishInv(s);
    } else if s.enq.RoomSeen? {
      WriteSlotInv(s);
    }
  }

  /** Taking the oldest item off the queue. */
  lemma QueueShrinks<T>(accepted: seq<T>, taken: seq<T>)
    requires taken <= accepted && |taken| < |accepted|
    ensures var q := accepted[|taken|..]; var more := taken + [q[0]];
            more <= accepted && accepted[|more|..] == q[1..]
  {
    var q := accepted[|taken|..];
    assert accepted == taken + q;
    assert taken + [q[0]] == accepted[..|taken| + 1];
  }

  lemma SlotShift(head: nat, i: nat, n: nat)
    requires head < n && i < n
    ensures Slot(Slot(head, 1, n), i, n) == Slot(head, i + 1, n)
  {
  }

  /** The step that advances the head. */
  lemma FinishDequeueInv<T>(s: State<T>)
    requires Inv(s) && s.deq.SlotCleared?
    ensures var s' := StepDequeue(s);
            && Inv(s') && s'.taken == s.taken + [Queue(s)[0]] && Queue(s') == Queue(s)[1..]
  {
    NextSlotIs(s.head, s.size);
    hide NextSlot, Slot, Window;
    QueueShrinks(s.accepted, s.taken);
    SlotShift(s.head, |Queue(s)| - 1, s.size);
    WindowShrinks(s.slots, s.head, Queue(s));
  }

  lemma StepDequeueInv<T>(s: State<T>)
    requires Inv(s)
    ensures var s' := StepDequeue(s);
            && Inv(s') && s'.enq == s.enq && s'.accepted == s.accepted && s'.size == s.size
            && Queue(s') == (if s.deq.SlotCleared? then Queue(s)[1..] else Queue(s))
            && s'.taken == if s.deq.SlotCleared? then s.taken + [Queue(s)[0]] else s.taken
    ensures LeavesDequeue(s) <==> s.deq.SlotCleared?
    ensures LeavesDequeue(s) ==> Returning(s) == Some(Queue(s)[0])
  {
    if s.deq.SlotCleared? {
      FinishDequeueInv(s);
    } else if s.deq.TailTested? {
      ClearSlotInv(s);
    }
  }

  /** The step that empties the head slot touches no other slot of the queue. */
  lemma ClearSlotInv<T>(s: State<T>)
    requires Inv(s) && s.deq.TailTested?
    ensures Inv(StepDequeue(s))
  {
    hide Slot, Window;
    HeadIsSlot(s.head, s.size);
    WindowNarrows(s.slots, s.head, Queue(s));
    WindowKept(s.slots, s.head, Queue(s), 1, 0, None);
    SlotsDiffer(s.head, 0, |Queue(s)|, s.size);
  }

  lemma WindowNarrows<T>(slots: seq<Option<T>>, head: nat, q: seq<T>)
    requires head < |slots| && |q| < |slots| && Window(slots, head, q, 0)
    ensures Window(slots, head, q, 1)
  {
  }

  lemma HeadIsSlot(head: nat, n: nat)
    requires head < n
    ensures Slot(head, 0, n) == head
  {
  }

  lemma SameQueue<T>(s: State<T>, t: State<T>)
    requires s.accepted == t.accepted && s.taken == t.taken
    ensures Queue(s) == Queue(t)
  {
  }

  /** When the program counters leave the operations. */
  lemma EnqueuePc<T>(s: State<T>)
    requires Inv(s) && s.enq != NotEnqueuing
    ensures StepEnqueue(s).enq == NotEnqueuing <==> EnqueueAccepts(s) || EnqueueRefuses(s)
    ensures StepEnqueue(s).head == s.head
  {
    hide NextSlot;
  }

  lemma DequeuePc<T>(s: State<T>)
    requires Inv(s) && s.deq != NotDequeuing
    ensures StepDequeue(s).deq == NotDequeuing <==> LeavesDequeue(s)
  {
    hide NextSlot;
  }

  // ---------- progress ----------

  /** How many steps a running enqueue has left when it finds room. */
  function EnqueueLeft<T>(s: State<T>): nat
  {
    match s.enq
    case NotEnqueuing => 0
    case TailRead(_, _) => 3
    case RoomSeen(_, _) => 2
    case SlotWritten(_, _) => 1
  }

  function DequeueLeft<T>(s: State<T>): nat
  {
    match s.deq
    case NotDequeuing => 0
    case HeadRead(_) => 4
    case SlotRead(_, _) => 3
    case TailTested(_, _) => 2
    case SlotCleared(_, _) => 1
  }

  /**
   * Each step of a running enqueue brings it one step nearer to its end, and leaves the consumer
   * where it is; the last one appends the item and answers true. Only a full ring ends it early.
   */
  lemma EnqueueAdvances<T>(s: State<T>)
    requires Inv(s) && s.enq != NotEnqueuing
    ensures var s' := StepEnqueue(s);
            && EnqueueLeft(s') == (if EnqueueRefuses(s) then 0 else EnqueueLeft(s) - 1)
            && DequeueLeft(s') == DequeueLeft(s)
            && (s'.enq != NotEnqueuing ==> s'.enq.item == s.enq.item)
            && (EnqueueAccepts(s) <==> EnqueueLeft(s) == 1)
            && (EnqueueRefuses(s) <==> EnqueueLeft(s) == 3 && |Queue(s)| == s.size - 1)
  {
    hide NextSlot;
    StepEnqueueInv(s);
  }

  /** Each step of a running dequeue brings it one step nearer; the last one hands over the oldest item. */
  lemma DequeueAdvances<T>(s: State<T>)
    requires Inv(s) && s.deq != NotDequeuing
    ensures var s' := StepDequeue(s);
            && DequeueLeft(s') == DequeueLeft(s) - 1 && EnqueueLeft(s') == EnqueueLeft(s) && s'.accepted == s.accepted
            && (LeavesDequeue(s) <==> DequeueLeft(s) == 1)
            && Queue(s) != [] && (LeavesDequeue(s) ==> Returning(s) == Some(Queue(s)[0]))
  {
    hide NextSlot;
    StepDequeueInv(s);
  }

  /** The steps of the two threads, as far as the ring sees them. */
  datatype Move<T> = Offering(item: T) | Producing | Entering | Consuming

  predicate CanMove<T>(s: State<T>, move: Move<T>)
  {
    match move
    case Offering(_) => s.enq.NotEnqueuing?
    case Producing => !s.enq.NotEnqueuing?
    case Entering => s.deq.NotDequeuing? && |Queue(s)| > 0
    case Consuming => !s.deq.NotDequeuing?
  }

  function Moved<T>(s: State<T>, move: Move<T>): (s': State<T>)
    requires s.size > 0
    ensures s'.size == s.size
  {
    match move
    case Offering(item) => BeginEnqueue(s, item)
    case Producing => StepEnqueue(s)
    case Entering => BeginDequeue(s)
    case Consuming => StepDequeue(s)
  }

  predicate CanMoveAll<T>(s: State<T>, moves: seq<Move<T>>)
    requires s.size > 0
    decreases |moves|
  {
    moves != [] ==> CanMove(s, moves[0]) && CanMoveAll(Moved(s, moves[0]), moves[1..])
  }

  function MovedAll<T>(s: State<T>, moves: seq<Move<T>>): State<T>
    requires s.size > 0 && CanMoveAll(s, moves)
    decreases |moves|
  {
    if moves == [] then s else MovedAll(Moved(s, moves[0]), moves[1..])
  }

  function Produced<T>(moves: seq<Move<T>>): nat
  {
    if moves == [] then 0 else (if moves[0].Producing? then 1 else 0) + Produced(moves[1..])
  }

  function Consumed<T>(moves: seq<Move<T>>): nat
  {
    if moves == [] then 0 else (if moves[0].Consuming? then 1 else 0) + Consumed(moves[1..])
  }

  lemma MoveInv<T>(s: State<T>, move: Move<T>)
    requires Inv(s) && CanMove(s, move)
    ensures var s' := Moved(s, move);
            && Inv(s')
            && (move.Entering? || move.Consuming? ==>
                  s'.enq == s.enq && s'.accepted == s.accepted && |Queue(s')| <= |Queue(s)|)
            && (move.Offering? || move.Producing? ==> s'.deq == s.deq && s'.taken == s.taken && Queue(s) <= Queue(s'))
  {
    match move
    case Offering(item) => BeginEnqueueInv(s, item);
    case Producing => StepEnqueueInv(s);
    case Entering => BeginDequeueInv(s);
    case Consuming => StepDequeueInv(s);
  }

  /** There is room for the item of a running enqueue. */
  ghost predicate HasRoom<T>(s: State<T>) { s.enq.TailRead? ==> |Queue(s)| < s.size - 1 }

  /**
   * An enqueue that has room has appended its item, and nothing else, once it has taken its three
   * steps, whatever the consumer does between them; and not before.
   */
  lemma {:induction false} EnqueueCompletes<T>(s: State<T>, moves: seq<Move<T>>)
    requires Inv(s) && s.enq != NotEnqueuing && HasRoom(s) && CanMoveAll(s, moves)
    requires forall k | 0 <= k < |moves| :: !moves[k].Offering?
    ensures var s' := MovedAll(s, moves);
            && Produced(moves) <= EnqueueLeft(s)
            && (s'.enq == NotEnqueuing <==> Produced(moves) == EnqueueLeft(s))
            && s'.accepted == if Produced(moves) == EnqueueLeft(s) then s.accepted + [s.enq.item] else s.accepted
    decreases |moves|
  {
    if moves != [] {
      hide Inv, StepEnqueue, StepDequeue, Queue;
      MoveInv(s, moves[0]);
      var s' := Moved(s, moves[0]);
      if moves[0] == Producing {
        EnqueueAdvances(s);
        StepEnqueueInv(s);
        if s'.enq == NotEnqueuing {
          NoMoreProduced(s', moves[1..]);
        } else {
          EnqueueCompletes(s', moves[1..]);
        }
      } else {
        EnqueueCompletes(s', moves[1..]);
      }
    }
  }

  lemma {:induction false} NoMoreProduced<T>(s: State<T>, moves: seq<Move<T>>)
    requires Inv(s) && s.enq == NotEnqueuing && CanMoveAll(s, moves)
    requires forall k | 0 <= k < |moves| :: !moves[k].Offering?
    ensures Produced(moves) == 0 && MovedAll(s, moves).enq == NotEnqueuing && MovedAll(s, moves).accepted == s.accepted
    decreases |moves|
  {
    if moves != [] {
      hide Inv, StepEnqueue, StepDequeue, Queue;
      MoveInv(s, moves[0]);
      NoMoreProduced(Moved(s, moves[0]), moves[1..]);
    }
  }

  /**
   * A dequeue entered with something queued has taken the oldest item, and nothing else, once it has
   * taken its four steps, whatever the producer does between them; and not before.
   */
  lemma {:induction false} DequeueCompletes<T>(s: State<T>, moves: seq<Move<T>>)
    requires Inv(s) && s.deq != NotDequeuing && CanMoveAll(s, moves)
    requires forall k | 0 <= k < |moves| :: !moves[k].Entering?
    ensures var s' := MovedAll(s, moves);
            && Consumed(moves) <= DequeueLeft(s) && Queue(s) != []
            && (s'.deq == NotDequeuing <==> Consumed(moves) == DequeueLeft(s))
            && s'.taken == if Consumed(moves) == DequeueLeft(s) then s.taken + [Queue(s)[0]] else s.taken
    decreases |moves|
  {
    DequeueAdvances(s);
    if moves != [] {
      hide Inv, StepEnqueue, StepDequeue, Queue;
      MoveInv(s, moves[0]);
      var s' := Moved(s, moves[0]);
      if moves[0].Consuming? {
        StepDequeueInv(s);
        if s'.deq == NotDequeuing {
          NoMoreConsumed(s', moves[1..]);
        } else {
          DequeueCompletes(s', moves[1..]);
        }
      } else {
        DequeueCompletes(s', moves[1..]);
      }
    }
  }

  lemma {:induction false} NoMoreConsumed<T>(s: State<T>, moves: seq<Move<T>>)
    requires Inv(s) && s.deq == NotDequeuing && CanMoveAll(s, moves)
    requires forall k | 0 <= k < |moves| :: !moves[k].Entering?
    ensures Consumed(moves) == 0 && MovedAll(s, moves).deq == NotDequeuing && MovedAll(s, moves).taken == s.taken
    decreases |moves|
  {
    if moves != [] {
      hide Inv, StepEnqueue, StepDequeue, Queue;
      MoveInv(s, moves[0]);
      NoMoreConsumed(Moved(s, moves[0]), moves[1..]);
    }
  }

  /** How many of the answers are true. */
  function Trues(answers: seq<bool>): nat
  {
    if answers == [] then 0 else Trues(answers[..|answers| - 1]) + if answers[|answers| - 1] then 1 else 0
  }

  lemma TruesSnoc(answers: seq<bool>, b: bool)
    ensures Trues(answers + [b]) == Trues(answers) + if b then 1 else 0
  {
    assert (answers + [b])[..|answers|] == answers;
  }
}
