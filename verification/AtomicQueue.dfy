/** A bounded queue whose operations happen at once: what a concurrent history is held against. */
module AtomicQueue {
  import opened Options

  /** An event offered to the queue, or a poll and what it found. */
  datatype Act<T> = Offer(item: T) | Poll(found: Option<T>)

  function Front<T>(q: seq<T>): Option<T> { if q == [] then None else Some(q[0]) }

  function QueueAfter<T>(q: seq<T>, act: Act<T>, room: int): seq<T>
  {
    match act
    case Offer(item) => if |q| < room then q + [item] else q
    case Poll(_) => if q == [] then [] else q[1..]
  }

  function QueueAtEnd<T>(q: seq<T>, history: seq<Act<T>>, room: int): seq<T>
    decreases |history|
  {
    if history == [] then q else QueueAtEnd(QueueAfter(q, history[0], room), history[1..], room)
  }

  /** Every poll finds the front of the queue, or nothing exactly when it is empty. */
  predicate PollsAgree<T(==)>(q: seq<T>, history: seq<Act<T>>, room: int)
    decreases |history|
  {
    history == [] ||
    ((history[0].Poll? ==> history[0].found == Front(q))
        && PollsAgree(QueueAfter(q, history[0], room), history[1..], room))
  }

  /** What the offers are answered. */
  function AnswersOf<T>(q: seq<T>, history: seq<Act<T>>, room: int): seq<bool>
    decreases |history|
  {
    if history == [] then []
    else
      var first := if history[0].Offer? then [|q| < room] else [];
      first + AnswersOf(QueueAfter(q, history[0], room), history[1..], room)
  }

  /** What a poll found. */
  function FoundBy<T>(act: Act<T>): seq<T>
  {
    if act.Poll? && act.found.Some? then [act.found.value] else []
  }

  /** What the polls found. */
  function Found<T>(history: seq<Act<T>>): seq<T>
  {
    if history == [] then [] else FoundBy(history[0]) + Found(history[1..])
  }

  lemma {:induction false} EndMore<T>(q: seq<T>, history: seq<Act<T>>, act: Act<T>, room: int)
    ensures QueueAtEnd(q, history + [act], room) == QueueAfter(QueueAtEnd(q, history, room), act, room)
    decreases |history|
  {
    hide QueueAfter;
    Tails(history, act);
    if history == [] {
      assert QueueAtEnd(q, [act], room) == QueueAtEnd(QueueAfter(q, act, room), [], room);
    } else {
      EndMore(QueueAfter(q, history[0], room), history[1..], act, room);
    }
  }

  lemma Tails<T>(history: seq<Act<T>>, act: Act<T>)
    ensures (history + [act])[1..] == if history == [] then [] else history[1..] + [act]
    ensures (history + [act])[0] == if history == [] then act else history[0]
  {
  }

  lemma {:induction false} PollsMore<T>(q: seq<T>, history: seq<Act<T>>, act: Act<T>, room: int)
    ensures PollsAgree(q, history + [act], room)
       <==> PollsAgree(q, history, room) && (act.Poll? ==> act.found == Front(QueueAtEnd(q, history, room)))
    decreases |history|
  {
    hide QueueAfter;
    Tails(history, act);
    if history == [] {
      assert PollsAgree(QueueAfter(q, act, room), [], room);
    } else {
      PollsMore(QueueAfter(q, history[0], room), history[1..], act, room);
    }
  }

  lemma AnswersFirst<T>(q: seq<T>, history: seq<Act<T>>, room: int)
    requires history != []
    ensures AnswersOf(q, history, room)
         == (if history[0].Offer? then [|q| < room] else [])
            + AnswersOf(QueueAfter(q, history[0], room), history[1..], room)
  {
  }

  lemma NoAnswers<T>(q: seq<T>, room: int)
    ensures AnswersOf(q, [], room) == []
  {
  }

  lemma {:induction false} AnswersMore<T>(q: seq<T>, history: seq<Act<T>>, act: Act<T>, room: int)
    ensures AnswersOf(q, history + [act], room)
         == AnswersOf(q, history, room) + if act.Offer? then [|QueueAtEnd(q, history, room)| < room] else []
    decreases |history|
  {
    hide QueueAfter, AnswersOf;
    var more := history + [act];
    AnswersFirst(q, more, room);
    Tails(history, act);
    if history == [] {
      NoAnswers(q, room);
      NoAnswers(QueueAfter(q, act, room), room);
    } else {
      AnswersFirst(q, history, room);
      AnswersMore(QueueAfter(q, history[0], room), history[1..], act, room);
    }
  }

  lemma {:induction false} FoundMore<T>(history: seq<Act<T>>, act: Act<T>)
    ensures Found(history + [act]) == Found(history) + FoundBy(act)
    decreases |history|
  {
    hide FoundBy;
    Tails(history, act);
    if history == [] {
      assert Found([act]) == FoundBy(act) + Found<T>([]) == FoundBy(act);
    } else {
      FoundMore(history[1..], act);
      assert FoundBy(history[0]) + (Found(history[1..]) + FoundBy(act))
          == (FoundBy(history[0]) + Found(history[1..])) + FoundBy(act);
    }
  }

  /** What one more act at the end of a history changes. */
  lemma OneMore<T>(q: seq<T>, history: seq<Act<T>>, act: Act<T>, room: int)
    ensures var more := history + [act];
            var end := QueueAtEnd(q, history, room);
            && QueueAtEnd(q, more, room) == QueueAfter(end, act, room)
            && (PollsAgree(q, more, room) <==> PollsAgree(q, history, room) && (act.Poll? ==> act.found == Front(end)))
            && AnswersOf(q, more, room) == AnswersOf(q, history, room) + (if act.Offer? then [|end| < room] else [])
            && Found(more) == Found(history) + FoundBy(act)
  {
    hide *;
    EndMore(q, history, act, room);
    PollsMore(q, history, act, room);
    AnswersMore(q, history, act, room);
    FoundMore(history, act);
  }
}
