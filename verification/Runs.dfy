/** Runs of a state machine, whatever its threads are. */
module Runs {

  /** A machine: where it starts, which steps it can take, and where they lead. */
  datatype Machine<!W, !S> = Machine(start: W, can: (W, S) -> bool, next: (W, S) --> W)

  ghost predicate Total<W(!new), S(!new)>(m: Machine<W, S>)
  {
    forall w, step :: m.can(w, step) ==> m.next.requires(w, step)
  }

  ghost predicate Follows<W, S(!new)>(m: Machine<W, S>, w: W, w': W)
  {
    exists step :: m.can(w, step) && m.next.requires(w, step) && w' == m.next(w, step)
  }

  /** A run: each world follows from the one before by a step that any of the threads can take. */
  ghost predicate IsRun<W, S(!new)>(m: Machine<W, S>, worlds: seq<W>)
  {
    && worlds != [] && worlds[0] == m.start
    && forall i | 0 < i < |worlds| :: Follows(m, worlds[i - 1], worlds[i])
  }

  ghost predicate Kept<W(!new), S(!new)>(m: Machine<W, S>, inv: W -> bool)
    requires Total(m)
  {
    inv(m.start) && forall w, step :: inv(w) && m.can(w, step) ==> inv(m.next(w, step))
  }

  /** What holds at the start and is kept by every step holds all along. */
  lemma {:induction false} RunKeeps<W(!new), S(!new)>(m: Machine<W, S>, worlds: seq<W>, inv: W -> bool, k: nat)
    requires Total(m) && IsRun(m, worlds) && Kept(m, inv) && k < |worlds|
    ensures inv(worlds[k])
  {
    if k > 0 {
      RunKeeps(m, worlds, inv, k - 1);
      assert Follows(m, worlds[k - 1], worlds[k]);
    }
  }

  // ---------- progress ----------

  /** Steps that can be taken one after the other from w on, in any order of the threads. */
  ghost predicate Schedule<W(!new), S(!new)>(m: Machine<W, S>, w: W, steps: seq<S>)
    requires Total(m)
    decreases |steps|
  {
    steps != [] ==> m.can(w, steps[0]) && Schedule(m, m.next(w, steps[0]), steps[1..])
  }

  /** Where they lead. */
  ghost function After<W(!new), S(!new)>(m: Machine<W, S>, w: W, steps: seq<S>): W
    requires Total(m) && Schedule(m, w, steps)
    decreases |steps|
  {
    if steps == [] then w else After(m, m.next(w, steps[0]), steps[1..])
  }

  /** How many of the steps are those of one thread. */
  function Count<S>(steps: seq<S>, own: S -> bool): nat
  {
    if steps == [] then 0 else (if own(steps[0]) then 1 else 0) + Count(steps[1..], own)
  }

  /**
   * Until the goal is reached no step lowers the measure, and each of the thread's own raises it;
   * and the goal, once reached, stays.
   */
  ghost predicate Advances<W(!new), S(!new)>(m: Machine<W, S>, inv: W -> bool, goal: W -> bool, own: S -> bool,
          measure: W -> int)
    requires Total(m)
  {
    forall w, step | inv(w) && m.can(w, step) ::
      var w' := m.next(w, step);
      && inv(w')
      && (goal(w) ==> goal(w'))
      && (goal(w') || measure(w') >= measure(w) + if own(step) then 1 else 0)
  }

  /** So the thread gets as far as it takes steps, whatever the others do in between, unless the goal is reached. */
  lemma {:induction false} Progress<W(!new), S(!new)>(m: Machine<W, S>, w: W, steps: seq<S>, inv: W -> bool,
          goal: W -> bool, own: S -> bool, measure: W -> int)
    requires Total(m) && Advances(m, inv, goal, own, measure) && inv(w) && Schedule(m, w, steps)
    ensures var w' := After(m, w, steps);
            inv(w') && (goal(w) ==> goal(w')) && (goal(w') || measure(w') >= measure(w) + Count(steps, own))
    decreases |steps|
  {
    if steps != [] {
      Progress(m, m.next(w, steps[0]), steps[1..], inv, goal, own, measure);
    }
  }
}
