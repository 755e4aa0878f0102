/** `TRingbuffer` in its single-producer, single-consumer mode, one call at a time. */
module Ring {
  import opened Options

  /** `x % n` for a sum of a slot number and an offset that wraps round at most once. */
  lemma WrapOnce(x: nat, n: nat)
    requires x < 2 * n
    ensures x % n == if x < n then x else x - n
  {
    if x >= n {
      assert x == n + (x - n);
      ModShift(x - n, n);
    } else {
      ModSmall(x, n);
    }
  }

  lemma ModSmall(x: nat, n: nat)
    requires x < n
    ensures x % n == x
  {
  }

  lemma ModShift(x: nat, n: nat)
    requires x < n
    ensures (n + x) % n == x
  {
    var q, r := (n + x) / n, (n + x) % n;
    assert q * n + r == n + x && 0 <= r < n;
    if q == 0 {
      assert false;
    } else if q >= 2 {
      assert false;
    }
  }

  /** The i-th slot from the head on. */
  function Slot(head: nat, i: nat, n: nat): (s: nat)
    requires head < n && i <= n
    ensures s < n
  {
    if head + i < n then head + i else head + i - n
  }

  /** The slot after x. */
  function NextSlot(x: nat, n: nat): nat
    requires n > 0
  {
    (x + 1) % n
  }

  lemma NextSlotIs(x: nat, n: nat)
    requires x < n
    ensures NextSlot(x, n) == Slot(x, 1, n)
  {
    WrapOnce(x + 1, n);
  }

  class Ring<T> {
    const slots: array<Option<T>>
    const size: nat
    var head: nat
    var tail: nat
    ghost var contents: seq<T>

    ghost predicate Valid()
      reads this, slots
    {
      && slots.Length == size && 1 < size
      && head < size && |contents| < size
      && tail == Slot(head, |contents|, size)
      && forall i | 0 <= i < |contents| :: slots[Slot(head, i, size)] == Some(contents[i])
    }

    constructor (size: nat)
      requires size > 1
      ensures Valid() && contents == [] && this.size == size && fresh(slots)
    {
      slots := new Option<T>[size](_ => None);
      this.size := size;
      head, tail, contents := 0, 0, [];
    }

    method Enqueue(item: T) returns (accepted: bool)
      requires Valid()
      modifies this, slots
      ensures Valid()
      ensures accepted <==> |old(contents)| < size - 1
      ensures contents == if accepted then old(contents) + [item] else old(contents)
    {
      var tailOld := tail;
      NextSlotIs(tailOld, size);
      var tailNew := NextSlot(tailOld, size);
      if tailNew == head {
        return false;
      }
      slots[tailOld] := Some(item);
      tail := tailNew;
      contents := contents + [item];
      return true;
    }

    method Dequeue() returns (p: Option<T>)
      requires Valid()
      modifies this, slots
      ensures Valid()
      ensures p == if old(contents) == [] then None else Some(old(contents)[0])
      ensures contents == if old(contents) == [] then [] else old(contents)[1..]
    {
      var headOld := head;
      p := slots[headOld];
      if headOld == tail {
        return None;
      }
      NextSlotIs(headOld, size);
      var headNew := NextSlot(headOld, size);
      slots[headOld] := None;
      head := headNew;
      contents := contents[1..];
    }

    method Size() returns (count: nat)
      requires Valid()
      ensures count == |contents|
    {
      var h := head;
      var t := tail;
      return if h <= t then t - h else size - h + t;
    }

    /** The destructor's loop: every item left is deleted, oldest first. */
    method Drain() returns (deleted: seq<T>)
      requires Valid()
      modifies this, slots
      ensures Valid() && contents == [] && deleted == old(contents)
    {
      deleted := [];
      var p := Dequeue();
      while p.Some?
        invariant Valid()
        invariant p == None ==> contents == [] && deleted == old(contents)
        invariant p.Some? ==> deleted + [p.value] + contents == old(contents)
        decreases p.Some?, |contents|
      {
        deleted := deleted + [p.value];
        p := Dequeue();
      }
    }
  }
}
