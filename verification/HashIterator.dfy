/** The iterator that may delete while it walks. */
module HashIterator {
  import opened Options
  import opened HashSpec
  import opened HashTable

  /** The entries from position j of chain b on, in walking order. */
  ghost function From<T>(cs: seq<seq<T>>, b: nat, j: nat): seq<T>
    requires b < |cs| ==> j <= |cs[b]|
  {
    if b < |cs| then cs[b][j..] + Flatten(cs[b + 1..]) else []
  }

  /** Empty chains are passed over. */
  lemma {:induction false} SkipEmpty<T>(cs: seq<seq<T>>, a: nat, b: nat)
    requires a <= b <= |cs| && forall i | a <= i < b :: cs[i] == []
    ensures Flatten(cs[a..]) == Flatten(cs[b..])
    decreases b - a
  {
    if a < b {
      SkipEmpty(cs, a + 1, b);
      assert cs[a..][1..] == cs[a + 1..];
    }
  }

  lemma PastEnd<T>(cs: seq<seq<T>>)
    ensures Flatten(cs[|cs|..]) == []
  {
  }

  /** A chain read from its start is what the rest of the table begins with. */
  lemma FromStart<T>(cs: seq<seq<T>>, b: nat)
    requires b < |cs|
    ensures Flatten(cs[b..]) == From(cs, b, 0)
  {
    assert cs[b..][1..] == cs[b + 1..] && cs[b][0..] == cs[b];
  }

  /** Taking out the entry at a position leaves what came behind it to be walked. */
  lemma FromWithout<T>(cs: seq<seq<T>>, b: nat, j: nat)
    requires b < |cs| && j < |cs[b]|
    ensures var ds := cs[b := Without(cs[b], j)];
            && |ds[b]| == |cs[b]| - 1 && (j < |ds[b]| ==> ds[b][j] == cs[b][j + 1])
            && (j > 0 ==> ds[b][j - 1] == cs[b][j - 1])
            && From(ds, b, j) == From(cs, b, j)[1..]
            && (j == |ds[b]| ==> Flatten(ds[b + 1..]) == From(cs, b, j)[1..])
  {
    var ds := cs[b := Without(cs[b], j)];
    var rest := Flatten(cs[b + 1..]);
    hide Flatten;
    assert ds[b + 1..] == cs[b + 1..];
    TailWithout(cs[b], j);
    assert From(cs, b, j)[1..] == cs[b][j + 1..] + rest;
  }

  lemma TailWithout<T>(c: seq<T>, j: nat)
    requires j < |c|
    ensures Without(c, j)[j..] == c[j + 1..] == c[j..][1..]
    ensures j + 1 == |c| ==> c[j + 1..] == []
  {
  }

  class Iterator<K(!new), V(!new)> {
    var h: Hashtable<K, V>
    var e: Entry?<K, V>
    var parent: Entry?<K, V>
    var index: nat
    ghost var pos: nat // the position of e in its chain

    ghost predicate Valid()
      reads this, h, h.table, Cells(h.chains)
    {
      && h.Valid()
      && if e == null then parent == null && index == h.tablelength
         else && index < h.tablelength && pos < |h.chains[index]|
              && e == h.chains[index][pos]
              && parent == if pos > 0 then h.chains[index][pos - 1] else null
    }

    /** The entries still to be visited, the current one first. */
    ghost function Remaining(): (r: seq<Entry<K, V>>)
      requires Valid()
      reads this, h, h.table, Cells(h.chains)
      ensures if e == null then r == [] else r != [] && r[0] == e
    {
      if e == null then [] else From(h.chains, index, pos)
    }

    /** `hashtable_iterator`. */
    constructor (table: Hashtable<K, V>)
      requires table.Valid()
      ensures h == table && Valid() && Remaining() == Flatten(h.chains)
    {
      h := table;
      e, parent, index, pos := null, null, table.tablelength, 0;
      new;
      if h.entrycount == 0 {
        return;
      }
      var i := FirstChain(h, 0);
      assert h.chains[0..] == h.chains;
      Place(i);
    }

    /** The iterator stands at the start of chain j, or behind the last chain. */
    method Place(j: nat)
      requires h.Valid() && j <= h.tablelength
      requires j < h.tablelength ==> h.table[j] != null && h.chains[j] != []
      modifies this
      ensures h == old(h) && Valid() && parent == null && Remaining() == Flatten(h.chains[j..])
      ensures e != null <==> j < h.tablelength
    {
      hide InPlace, Flatten, LoadLimit, Without, Recs, AllRecs, FirstHit;
      PastEnd(h.chains);
      parent := null;
      index := j;
      pos := 0;
      if j < h.tablelength {
        e := h.table[j];
        FromStart(h.chains, j);
      } else {
        e := null;
      }
    }

    /** The first slot from `start` on that holds a chain; the table length if there is none. */
    static method FirstChain(table: Hashtable<K, V>, start: nat) returns (j: nat)
      requires table.Valid() && start <= table.tablelength
      ensures start <= j <= table.tablelength
      ensures j < table.tablelength ==> table.table[j] != null && table.chains[j] != []
      ensures Flatten(table.chains[start..]) == Flatten(table.chains[j..])
    {
      hide InPlace, Flatten, LoadLimit;
      j := start;
      while j < table.tablelength && table.table[j] == null
        invariant start <= j <= table.tablelength
        invariant forall a | start <= a < j :: table.chains[a] == []
      {
        j := j + 1;
      }
      SkipEmpty(table.chains, start, j);
    }

    /**
     * `hashtable_iterator_advance`. The successor of the current entry stands at position p of the
     * chain; after a deletion the current entry itself is no longer in the chain.
     */
    method Advance(ghost p: nat) returns (more: bool)
      requires h.Valid() && (e == null ==> Valid())
      requires e != null ==>
        && index < h.tablelength && p <= |h.chains[index]|
        && e.next == if p < |h.chains[index]| then h.chains[index][p] else null
      modifies this
      ensures h == old(h) && more == (e != null)
      ensures old(e) == null ==> Valid() && e == null
      ensures old(e) != null ==>
        if p < |h.chains[old(index)]|
        then e == h.chains[old(index)][p] && parent == old(e) && index == old(index) && pos == p
        else Valid() && parent == null && Remaining() == Flatten(h.chains[old(index) + 1..])
    {
      if e == null {
        return false;
      }
      var next := e.next;
      if next != null {
        parent := e;
        e := next;
        pos := p;
        return true;
      }
      more := ToNextChain();
    }

    /** The part of `hashtable_iterator_advance` behind the end of a chain. */
    method ToNextChain() returns (more: bool)
      requires h.Valid() && index < h.tablelength
      modifies this
      ensures Valid() && h == old(h) && more == (e != null)
      ensures parent == null && Remaining() == Flatten(h.chains[old(index) + 1..])
    {
      hide InPlace, Flatten, LoadLimit, Linked, Without, From;
      var j := index + 1;
      if h.tablelength > j {
        j := FirstChain(h, j);
      }
      Place(j);
      more := e != null;
    }

    /** `hashtable_iterator_advance` from an entry of the table: exactly one entry is passed. */
    method Next() returns (more: bool)
      requires Valid()
      modifies this
      ensures Valid() && h == old(h) && more == (e != null)
      ensures Remaining() == if old(e) == null then [] else old(Remaining())[1..]
    {
      hide Flatten, InPlace;
      if e != null {
        assert h.chains[index][pos..][1..] == h.chains[index][pos + 1..];
        assert Remaining()[1..] == h.chains[index][pos + 1..] + Flatten(h.chains[index + 1..]);
      }
      more := Advance(pos + 1);
    }

    static lemma NextInChain(h: Hashtable<K, V>, index: nat, j: nat)
      requires h.Valid() && index < h.tablelength && j < |h.chains[index]|
      ensures var c := h.chains[index]; c[j].next == if j + 1 < |c| then c[j + 1] else null
    {
      hide Flatten, InPlace;
    }

    /** `hashtable_iterator_remove`: the current entry, and no other, leaves the table. */
    method Remove() returns (more: bool)
      requires Valid() && e != null
      modifies this, h`entrycount, h`chains, h.table, Cells(h.chains)
      ensures Valid() && h == old(h) && h.table == old(h.table) && more == (e != null)
      ensures h.chains == old(h.chains)[old(index) := Without(old(h.chains)[old(index)], old(pos))]
      ensures h.entrycount == old(h.entrycount) - 1
      ensures Cells(h.chains) <= old(Cells(h.chains))
      ensures Remaining() == old(Remaining())[1..]
    {
      hide InPlace, Flatten, FirstHit, From, Without, Linked, Recs, AllRecs;
      ghost var c := h.chains[index];
      NextInChain(h, index, pos);
      FromWithout(h.chains, index, pos);
      h.Unlink(index, parent, e, c, pos);
      var removed, rememberParent := e, parent;
      more := Advance(pos);
      if parent == removed {
        parent := rememberParent;
      }
    }

    /** `hashtable_iterator_search`. */
    method Search(table: Hashtable<K, V>, k: K) returns (found: bool)
      requires table.Valid()
      modifies this
      ensures found <==> HashSpec.Search(table.Abs(), k, table.env.hash(k), table.env.eq) != None
      ensures found ==> Valid() && h == table && e != null && e.rec.h == table.env.hash(k) && table.env.eq(k, e.rec.k)
      ensures found ==> Some(e.rec.v) == HashSpec.Search(table.Abs(), k, table.env.hash(k), table.env.eq)
      ensures !found ==> h == old(h) && e == old(e) && parent == old(parent) && index == old(index)
    {
      hide FirstHit, InPlace, Flatten, Linked, LoadLimit;
      var i, prev, entry;
      ghost var j;
      i, prev, entry, j := table.Locate(k);
      if entry == null {
        return false;
      }
      index, e, parent, h, pos := i, entry, prev, table, j;
      return true;
    }
  }

  // ---------- deleting while iterating ----------

  /** The entries a walk has left in place: the kept ones and those it has not reached. */
  ghost function Spared<T>(keep: T -> bool, visited: seq<T>): T -> bool
  {
    (x: T) => keep(x) || x !in visited
  }

  lemma {:induction false} FilterSame<T>(s: seq<T>, p: T -> bool, q: T -> bool)
    requires forall x | x in s :: p(x) <==> q(x)
    ensures Filter(s, p) == Filter(s, q)
  {
    if s != [] { FilterSame(s[1..], p, q); }
  }

  lemma {:induction false} FilterAll<T>(s: seq<T>, p: T -> bool)
    requires forall x | x in s :: p(x)
    ensures Filter(s, p) == s
  {
    if s != [] { FilterAll(s[1..], p); }
  }

  ghost predicate NoRepeats<T>(s: seq<T>) { forall i, j | 0 <= i < j < |s| :: s[i] != s[j] }

  /** Refusing one more element takes exactly that element out of what was filtered. */
  lemma FilterDropsOne<T>(s: seq<T>, p: T -> bool, q: T -> bool, e: T, k: nat)
    requires NoRepeats(s) && k < |Filter(s, p)| && Filter(s, p)[k] == e
    requires forall x | x in s :: q(x) <==> p(x) && x != e
    ensures Filter(s, q) == Without(Filter(s, p), k)
  {
    hide Filter, NoRepeats;
    FilterMembers(s, p, e);
    var a, b := SplitAt(s, e);
    SplitFilter(a, e, b, p);
    SplitFilter(a, e, b, q);
    FilterSame(a, p, q);
    FilterSame(b, p, q);
    FilterMembers(a, p, e);
    FilterMembers(b, p, e);
    OnlyPlace(Filter(a, p), e, Filter(b, p), k);
  }

  lemma SplitAt<T>(s: seq<T>, e: T) returns (a: seq<T>, b: seq<T>)
    requires NoRepeats(s) && e in s
    ensures s == a + [e] + b && e !in a && e !in b
  {
    var i :| 0 <= i < |s| && s[i] == e;
    a, b := s[..i], s[i + 1..];
  }

  lemma SplitFilter<T>(a: seq<T>, e: T, b: seq<T>, p: T -> bool)
    ensures Filter(a + [e] + b, p) == Filter(a, p) + (if p(e) then [e] else []) + Filter(b, p)
  {
    hide Filter;
    FilterConcat(a + [e], b, p);
    FilterConcat(a, [e], p);
    FilterOne(e, p);
  }

  lemma FilterOne<T>(e: T, p: T -> bool)
    ensures Filter([e], p) == if p(e) then [e] else []
  {
    assert Filter([e], p) == (if p(e) then [e] else []) + Filter([], p);
  }

  lemma OnlyPlace<T>(a: seq<T>, e: T, b: seq<T>, k: nat)
    requires e !in a && e !in b && k < |a + [e] + b| && (a + [e] + b)[k] == e
    ensures Without(a + [e] + b, k) == a + b
  {
    assert k == |a|;
  }

  /** The state of a walk: some entries have been visited, and of these the unwanted ones are gone. */
  ghost predicate Walking<K(!new), V(!new)>(now: seq<seq<Entry<K, V>>>, before: seq<seq<Entry<K, V>>>,
          keep: Entry<K, V> -> bool, visited: seq<Entry<K, V>>)
  {
    |now| == |before| && forall i | 0 <= i < |before| :: now[i] == Filter(before[i], Spared(keep, visited))
  }

  lemma WalkStarts<K(!new), V(!new)>(before: seq<seq<Entry<K, V>>>, keep: Entry<K, V> -> bool)
    ensures Walking(before, before, keep, [])
  {
    forall i | 0 <= i < |before| ensures before[i] == Filter(before[i], Spared(keep, [])) {
      FilterAll(before[i], Spared(keep, []));
    }
  }

  lemma WalkKeeps<K(!new), V(!new)>(now: seq<seq<Entry<K, V>>>, before: seq<seq<Entry<K, V>>>,
          keep: Entry<K, V> -> bool, visited: seq<Entry<K, V>>, e: Entry<K, V>)
    requires Walking(now, before, keep, visited) && keep(e)
    ensures Walking(now, before, keep, visited + [e])
  {
    forall i | 0 <= i < |before| ensures now[i] == Filter(before[i], Spared(keep, visited + [e])) {
      FilterSame(before[i], Spared(keep, visited), Spared(keep, visited + [e]));
    }
  }

  lemma BucketOfMember<K(!new), V(!new)>(cs: seq<seq<Entry<K, V>>>)
    requires InPlace(cs)
    ensures forall i, e | 0 <= i < |cs| && e in cs[i] :: e.rec.h % |cs| == i
  {
  }

  lemma WalkDrops<K(!new), V(!new)>(now: seq<seq<Entry<K, V>>>, before: seq<seq<Entry<K, V>>>,
          keep: Entry<K, V> -> bool, visited: seq<Entry<K, V>>, b: nat, j: nat)
    requires Walking(now, before, keep, visited) && InPlace(before)
    requires forall i | 0 <= i < |before| :: NoRepeats(before[i])
    requires b < |now| && j < |now[b]| && !keep(now[b][j])
    ensures Walking(now[b := Without(now[b], j)], before, keep, visited + [now[b][j]])
  {
    var e := now[b][j];
    var p, q := Spared(keep, visited), Spared(keep, visited + [e]);
    FilterMembers(before[b], p, e);
    BucketOfMember(before);
    forall i | 0 <= i < |before| ensures now[b := Without(now[b], j)][i] == Filter(before[i], q) {
      if i == b {
        FilterDropsOne(before[b], p, q, e, j);
      } else {
        assert e.rec.h % |before| == b;
        FilterSame(before[i], p, q);
      }
    }
  }

  lemma WalkEnds<K(!new), V(!new)>(now: seq<seq<Entry<K, V>>>, before: seq<seq<Entry<K, V>>>, keep: Entry<K, V> -> bool)
    requires Walking(now, before, keep, Flatten(before))
    ensures |now| == |before| && forall i | 0 <= i < |before| :: now[i] == Filter(before[i], keep)
  {
    forall i | 0 <= i < |before| ensures now[i] == Filter(before[i], keep) {
      forall x | x in before[i] ensures x in Flatten(before) {
        FlattenMembers(before, x);
      }
      FilterSame(before[i], Spared(keep, Flatten(before)), keep);
    }
  }

  lemma {:induction false} FlattenFilter<T>(now: seq<seq<T>>, before: seq<seq<T>>, p: T -> bool)
    requires |now| == |before| && forall i | 0 <= i < |before| :: now[i] == Filter(before[i], p)
    ensures Flatten(now) == Filter(Flatten(before), p)
  {
    if before != [] {
      FlattenFilter(now[1..], before[1..], p);
      FilterConcat(before[0], Flatten(before[1..]), p);
    }
  }

  /**
   * Any walk that advances over the entries it keeps and removes the others, for any choice per
   * entry: it visits each entry once, in order, terminates, and leaves in every chain exactly the
   * kept entries in their original order, with the count to match.
   */
  method Sweep<K(!new), V(!new)>(h: Hashtable<K, V>, keep: Entry<K, V> -> bool)
          returns (ghost visited: seq<Entry<K, V>>)
    requires h.Valid()
    modifies h`entrycount, h`chains, h.table, Cells(h.chains)
    ensures h.Valid() && h.table == old(h.table)
    ensures visited == Flatten(old(h.chains))
    ensures |h.chains| == |old(h.chains)|
    ensures forall i | 0 <= i < |h.chains| :: h.chains[i] == Filter(old(h.chains)[i], keep)
    ensures h.entrycount == |Filter(Flatten(old(h.chains)), keep)|
  {
    hide Flatten, Filter, InPlace, Walking, Iterator.Remaining;
    ghost var before := h.chains;
    visited := [];
    var itr := new Iterator(h);
    WalkStarts(before, keep);
    assert forall i | 0 <= i < |before| :: NoRepeats(before[i]);
    hide NoRepeats, From, Without, Spared, LoadLimit;
    while itr.e != null
      invariant fresh(itr) && itr.h == h && itr.Valid() && h.table == old(h.table)
      invariant Cells(h.chains) <= Cells(before)
      invariant Walking(h.chains, before, keep, visited)
      invariant visited + itr.Remaining() == Flatten(before)
      decreases |itr.Remaining()|
    {
      visited := Visit(itr, keep, before, visited);
    }
    assert visited + [] == visited;
    WalkEnds(h.chains, before, keep);
    FlattenFilter(h.chains, before, keep);
  }

  /** One entry of the walk: passed when it is kept, removed when it is not. */
  method Visit<K(!new), V(!new)>(itr: Iterator<K, V>, keep: Entry<K, V> -> bool, ghost before: seq<seq<Entry<K, V>>>,
          ghost visited: seq<Entry<K, V>>)
    returns (ghost more: seq<Entry<K, V>>)
    requires itr.Valid() && itr.e != null && Walking(itr.h.chains, before, keep, visited) && InPlace(before)
    requires forall i | 0 <= i < |before| :: NoRepeats(before[i])
    modifies itr, itr.h`entrycount, itr.h`chains, itr.h.table, Cells(itr.h.chains)
    ensures itr.Valid() && itr.h == old(itr.h) && itr.h.table == old(itr.h.table)
    ensures Cells(itr.h.chains) <= old(Cells(itr.h.chains))
    ensures more == visited + [old(itr.e)] && itr.Remaining() == old(itr.Remaining())[1..]
    ensures Walking(itr.h.chains, before, keep, more)
    ensures more + itr.Remaining() == visited + old(itr.Remaining())
  {
    hide Flatten, Filter, InPlace, Walking, Iterator.Remaining, NoRepeats, From, Without, Spared, LoadLimit;
    more := visited + [itr.e];
    assert more + itr.Remaining()[1..] == visited + itr.Remaining();
    var on;
    if keep(itr.e) {
      WalkKeeps(itr.h.chains, before, keep, visited, itr.e);
      on := itr.Next();
    } else {
      WalkDrops(itr.h.chains, before, keep, visited, itr.index, itr.pos);
      on := itr.Remove();
    }
  }
}
