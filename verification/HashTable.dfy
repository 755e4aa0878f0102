/** The chained hash table on the heap: an array of linked chains. */
module HashTable {
  import opened Options
  import opened HashSpec
  import opened HashRuns

  class Entry<K(!new), V(!new)> {
    const rec: Rec<K, V>
    var next: Entry?<K, V>

    constructor (rec: Rec<K, V>, next: Entry?<K, V>)
      ensures this.rec == rec && this.next == next
    {
      this.rec, this.next := rec, next;
    }
  }

  // ---------- chains ----------

  /** The chain c, without repetition, hangs off head. */
  ghost predicate Linked<K(!new), V(!new)>(head: Entry?<K, V>, c: seq<Entry<K, V>>)
    reads c
  {
    && head == (if c == [] then null else c[0])
    && (forall j {:trigger c[j].next} | 0 <= j < |c| :: c[j].next == if j + 1 < |c| then c[j + 1] else null)
    && (forall i, j | 0 <= i < j < |c| :: c[i] != c[j])
  }

  ghost function Recs<K(!new), V(!new)>(c: seq<Entry<K, V>>): (r: seq<Rec<K, V>>)
    ensures |r| == |c|
  {
    seq(|c|, j requires 0 <= j < |c| => c[j].rec)
  }

  ghost function AllRecs<K(!new), V(!new)>(cs: seq<seq<Entry<K, V>>>): (r: Buckets<K, V>)
    ensures |r| == |cs|
  {
    seq(|cs|, i requires 0 <= i < |cs| => Recs(cs[i]))
  }

  ghost function Cells<K(!new), V(!new)>(cs: seq<seq<Entry<K, V>>>): set<Entry<K, V>>
  {
    set i, j | 0 <= i < |cs| && 0 <= j < |cs[i]| :: cs[i][j]
  }

  /** Every entry is in the bucket of its hash. */
  ghost predicate InPlace<K(!new), V(!new)>(cs: seq<seq<Entry<K, V>>>)
  {
    forall i, j | 0 <= i < |cs| && 0 <= j < |cs[i]| :: cs[i][j].rec.h % |cs| == i
  }

  /** The chain without its entry at position j; `prev` is the entry before it, if any. */
  lemma Unlinked<K(!new), V(!new)>(head: Entry?<K, V>, c: seq<Entry<K, V>>, j: nat)
    requires j < |c| && (forall i, j | 0 <= i < j < |c| :: c[i] != c[j])
    requires head == if j > 0 then c[0] else if |c| > 1 then c[1] else null
    requires forall i {:trigger c[i].next} | 0 <= i < |c| && i != j && i + 1 != j ::
               c[i].next == if i + 1 < |c| then c[i + 1] else null
    requires j > 0 ==> c[j - 1].next == if j + 1 < |c| then c[j + 1] else null
    ensures Linked(head, Without(c, j))
  {
    var w := Without(c, j);
    forall i {:trigger w[i].next} | 0 <= i < |w| ensures w[i].next == if i + 1 < |w| then w[i + 1] else null {
      assert w[i] == c[if i < j then i else i + 1];
    }
  }

  lemma WithoutInPlace<K(!new), V(!new)>(cs: seq<seq<Entry<K, V>>>, i: nat, j: nat)
    requires i < |cs| && j < |cs[i]| && InPlace(cs)
    ensures InPlace(cs[i := Without(cs[i], j)]) && Cells(cs[i := Without(cs[i], j)]) <= Cells(cs)
  {
    var ds := cs[i := Without(cs[i], j)];
    forall a, b | 0 <= a < |ds| && 0 <= b < |ds[a]|
      ensures ds[a][b] in Cells(cs) && ds[a][b].rec.h % |ds| == a
    {
      assert ds[a][b] == if a == i && b >= j then cs[a][b + 1] else cs[a][b];
    }
  }

  /** No entry hangs in two chains. */
  lemma OtherChains<K(!new), V(!new)>(cs: seq<seq<Entry<K, V>>>, i: nat, e: Entry<K, V>)
    requires i < |cs| && InPlace(cs) && e in cs[i]
    ensures forall k, x | 0 <= k < |cs| && k != i && 0 <= x < |cs[k]| :: cs[k][x] != e
  {
  }

  lemma RecsWithout<K(!new), V(!new)>(c: seq<Entry<K, V>>, j: nat)
    requires j < |c|
    ensures Recs(Without(c, j)) == Without(Recs(c), j)
  {
  }

  lemma {:induction false} FlattenLength<K(!new), V(!new)>(cs: seq<seq<Entry<K, V>>>)
    ensures |Flatten(AllRecs(cs))| == |Flatten(cs)|
    ensures Flatten(AllRecs(cs)) == Recs(Flatten(cs))
  {
    if cs != [] {
      FlattenLength(cs[1..]);
      assert AllRecs(cs)[1..] == AllRecs(cs[1..]);
    }
  }

  class Hashtable<K(!new), V(!new)> {
    var table: array<Entry?<K, V>>
    var tablelength: nat
    var entrycount: nat
    var loadlimit: nat
    var primeindex: nat
    const env: Env<K>
    ghost var chains: seq<seq<Entry<K, V>>>

    ghost predicate Valid()
      reads this, table, Cells(chains)
    {
      Shape() && entrycount == |Flatten(chains)|
    }

    /** The table without its count, which an insertion raises first. */
    ghost predicate Shape()
      reads `table, `tablelength, `loadlimit, `primeindex, `chains, table, Cells(chains)
    {
      && table.Length == tablelength == |chains|
      && primeindex < PRIME_TABLE_LENGTH && tablelength == PRIMES[primeindex]
      && loadlimit == LoadLimit(tablelength)
      && (forall i | 0 <= i < |chains| :: Linked(table[i], chains[i]))
      && InPlace(chains)
    }

    /** The table as a value. */
    ghost function Abs(): Table<K, V>
      reads this
    {
      Table(AllRecs(chains), entrycount, primeindex)
    }

    /** Everything a method may write. */
    ghost function Frame(): set<object>
      reads this
    {
      {this, table} + Cells(chains)
    }

    constructor (primeindex: nat, env: Env<K>)
      requires primeindex < PRIME_TABLE_LENGTH
      ensures Valid() && fresh(Frame()) && this.env == env
      ensures Abs() == Created(primeindex)
    {
      var size := PRIMES[primeindex];
      table := new Entry?<K, V>[size](_ => null);
      tablelength, entrycount, loadlimit := size, 0, LoadLimit(size);
      this.primeindex, this.env := primeindex, env;
      chains := seq(size, _ => []);
      new;
      FlattenEmpty(chains);
    }

    /**
     * `create_hashtable`: the smallest prime of the table above minsize; null when that is too large
     * or when the record or its array cannot be allocated.
     */
    static method Create(minsize: nat, env: Env<K>, recordMemory: bool, arrayMemory: bool) returns (h: Hashtable?<K, V>)
      ensures h == null <==> minsize > 0x4000_0000 || !recordMemory || !arrayMemory
      ensures h != null ==> h.Valid() && fresh(h.Frame()) && h.env == env && h.Abs() == Created(h.primeindex)
      ensures h != null ==> h.tablelength > minsize && forall i | 0 <= i < h.primeindex :: PRIMES[i] <= minsize
    {
      if minsize > 0x4000_0000 {
        return null;
      }
      var pindex := 0;
      while pindex < PRIME_TABLE_LENGTH
        invariant pindex <= PRIME_TABLE_LENGTH && forall i | 0 <= i < pindex :: PRIMES[i] <= minsize
      {
        if PRIMES[pindex] > minsize {
          break;
        }
        pindex := pindex + 1;
      }
      assert PRIMES[PRIME_TABLE_LENGTH - 1] > minsize;
      if !recordMemory || !arrayMemory {
        return null;
      }
      h := new Hashtable(pindex, env);
    }

    /** The structure on the heap is a table in the sense of the specification. */
    lemma AbsInv()
      requires Valid()
      ensures Inv(Abs())
    {
      FlattenLength(chains);
      forall i, r | 0 <= i < |chains| && r in Recs(chains[i]) ensures r.h % |chains| == i {
        var j :| 0 <= j < |chains[i]| && Recs(chains[i])[j] == r;
        assert chains[i][j].rec == r;
      }
    }

    /**
     * The chain walk of `hashtable_search`, `hashtable_remove` and `hashtable_iterator_search`:
     * the first entry that passes the test and the one before it, or null at the end of the chain.
     */
    method Locate(k: K) returns (index: nat, prev: Entry?<K, V>, e: Entry?<K, V>, ghost j: nat)
      requires Valid()
      ensures index == env.hash(k) % tablelength
      ensures j == FirstHit(Recs(chains[index]), Hit(k, env.hash(k), env.eq))
      ensures e == if j < |chains[index]| then chains[index][j] else null
      ensures prev == if j > 0 then chains[index][j - 1] else null
    {
      var hashvalue := env.hash(k);
      index := hashvalue % tablelength;
      ghost var c := chains[index];
      j := 0;
      prev := null;
      e := table[index];
      while e != null
        invariant j <= |c| && e == (if j < |c| then c[j] else null)
        invariant prev == if j > 0 then c[j - 1] else null
        invariant FirstHit(Recs(c), Hit(k, hashvalue, env.eq)) == j + FirstHit(Recs(c)[j..], Hit(k, hashvalue, env.eq))
        decreases |c| - j
      {
        assert Recs(c)[j..][1..] == Recs(c)[j + 1..] && Recs(c)[j..][0] == e.rec;
        if hashvalue == e.rec.h && env.eq(k, e.rec.k) {
          return;
        }
        prev := e;
        e := e.next;
        j := j + 1;
      }
    }

    /** `hashtable_search`. */
    method Search(k: K) returns (v: Option<V>)
      requires Valid()
      ensures v == HashSpec.Search(Abs(), k, env.hash(k), env.eq)
    {
      hide FirstHit;
      var index, prev, e;
      ghost var j;
      index, prev, e, j := Locate(k);
      if e != null {
        return Some(e.rec.v);
      }
      return None;
    }

    /** `hashtable_remove`. */
    method Remove(k: K) returns (v: Option<V>)
      requires Valid()
      modifies this`entrycount, this`chains, table, Cells(chains)
      ensures Valid() && table == old(table)
      ensures Abs() == HashSpec.Remove(old(Abs()), k, env.hash(k), env.eq)
      ensures v == HashSpec.Search(old(Abs()), k, env.hash(k), env.eq)
      ensures Cells(chains) <= old(Cells(chains))
    {
      hide FirstHit, Linked, InPlace;
      var index, prev, e;
      ghost var j;
      index, prev, e, j := Locate(k);
      if e != null {
        Lengths(index, chains[index], j);
        Unlink(index, prev, e, chains[index], j);
        return Some(e.rec.v);
      }
      return None;
    }

    /** `*pE = e->next; h->entrycount--;` for the entry at position j of the chain c at the index. */
    method Unlink(index: nat, prev: Entry?<K, V>, e: Entry<K, V>, ghost c: seq<Entry<K, V>>, ghost j: nat)
      requires Valid() && index < tablelength && c == chains[index]
      requires j < |c| && e == c[j] && prev == if j > 0 then c[j - 1] else null
      modifies this`entrycount, this`chains, table, Cells(chains)
      ensures Valid() && table == old(table)
      ensures chains == old(chains)[index := Without(c, j)]
      ensures entrycount == old(entrycount) - 1
      ensures Cells(chains) <= old(Cells(chains))
      ensures e.next == old(e.next)
      ensures var b := old(Abs()).buckets;
              Abs() == Table(b[index := Without(b[index], j)], old(entrycount) - 1, primeindex)
    {
      hide Flatten, InPlace, LoadLimit;
      Lengths(index, c, j);
      if prev == null {
        table[index] := e.next;
      } else {
        OtherChains(chains, index, prev);
        prev.next := e.next;
      }
      entrycount := entrycount - 1;
      WithoutInPlace(chains, index, j);
      chains := chains[index := Without(c, j)];
      Unlinked(table[index], c, j);
      RecsWithout(c, j);
    }

    lemma Lengths(index: nat, c: seq<Entry<K, V>>, j: nat)
      requires index < |chains| && c == chains[index] && j < |c|
      ensures |Flatten(chains[index := Without(c, j)])| + 1 == |Flatten(chains)|
    {
      FlattenUpdate(chains, index, Without(c, j));
    }

    /** One transfer: the head of the chain at slot i of the old table goes to the front of its new chain. */
    static method MoveHead(from: array<Entry?<K, V>>, to: array<Entry?<K, V>>, i: nat, ghost rest: seq<Entry<K, V>>,
            ghost newc: seq<seq<Entry<K, V>>>)
      returns (ghost moved: seq<seq<Entry<K, V>>>)
      requires from != to && i < from.Length && 0 < to.Length == |newc|
      requires Linked(from[i], rest) && rest != []
      requires forall b | 0 <= b < |newc| :: Linked(to[b], newc[b]) && rest[0] !in newc[b]
      modifies from, to, rest[0]
      ensures forall a | 0 <= a < from.Length && a != i :: from[a] == old(from[a])
      ensures Linked(from[i], rest[1..])
      ensures var b := rest[0].rec.h % |newc|; moved == newc[b := [rest[0]] + newc[b]]
      ensures forall b | 0 <= b < |moved| :: Linked(to[b], moved[b])
    {
      var e := from[i];
      from[i] := e.next;
      var index := e.rec.h % to.Length;
      e.next := to[index];
      to[index] := e;
      moved := newc[index := [e] + newc[index]];
    }

    /** The inner loop of `hashtable_expand`: the whole chain at slot i is transferred. */
    method MoveChain(to: array<Entry?<K, V>>, i: nat, ghost oldc: seq<seq<Entry<K, V>>>,
            ghost newc: seq<seq<Entry<K, V>>>, ghost done: seq<Rec<K, V>>)
      returns (ghost moved: seq<seq<Entry<K, V>>>)
      requires table != to && i < table.Length == |oldc| && InPlace(oldc) && 0 < to.Length == |newc|
      requires forall a | i <= a < |oldc| :: Linked(table[a], oldc[a])
      requires forall b | 0 <= b < |newc| :: Linked(to[b], newc[b])
      requires Holds(newc, done) && CameFrom(newc, oldc, i, 0)
      modifies table, to, Cells(oldc)
      ensures forall a | i < a < |oldc| :: Linked(table[a], oldc[a])
      ensures |moved| == |newc| && forall b | 0 <= b < |moved| :: Linked(to[b], moved[b])
      ensures Holds(moved, done + Recs(oldc[i])) && CameFrom(moved, oldc, i + 1, 0)
    {
      hide Holds, CameFrom, InPlace;
      ghost var c := oldc[i];
      ghost var j := 0;
      moved := newc;
      assert c[j..] == c && done + Recs(c[..0]) == done;
      while table[i] != null
        invariant j <= |c| && Linked(table[i], c[j..])
        invariant forall a | i < a < |oldc| :: Linked(table[a], oldc[a])
        invariant |moved| == |newc| && forall b | 0 <= b < |moved| :: Linked(to[b], moved[b])
        invariant Holds(moved, done + Recs(c[..j])) && CameFrom(moved, oldc, i, j)
        decreases |c| - j
      {
        ghost var rest := c[j..];
        CameFromPush(moved, oldc, i, j);
        HoldsPush(moved, done + Recs(c[..j]), c[j]);
        assert rest[1..] == c[j + 1..];
        assert done + Recs(c[..j]) + [c[j].rec] == done + Recs(c[..j + 1]);
        moved := MoveHead(table, to, i, rest, moved);
        j := j + 1;
      }
      assert c[..j] == c;
      CameFromAll(moved, oldc, i);
    }

    /** `hashtable_expand`; `memory` says whether the new array can be allocated. */
    method Expand(memory: bool) returns (ok: bool)
      requires Shape()
      modifies this`table, this`tablelength, this`loadlimit, this`primeindex, this`chains, table, Cells(chains)
      ensures Shape() && |Flatten(chains)| == old(|Flatten(chains)|)
      ensures ok == CanExpand(old(Abs()), memory)
      ensures Abs() == HashSpec.Expand(old(Abs()), memory)
      ensures table == old(table) || fresh(table)
      ensures Cells(chains) <= old(Cells(chains))
    {
      hide Linked, Rehash, InPlace, Flatten, AllRecs, Holds, CameFrom, Cells, LoadLimit;
      if primeindex == PRIME_TABLE_LENGTH - 1 {
        return false;
      }
      primeindex := primeindex + 1;
      var newsize := PRIMES[primeindex];
      if !memory {
        primeindex := primeindex - 1;
        return false;
      }
      ghost var oldc := chains;
      var newtable := new Entry?<K, V>[newsize](_ => null);
      ghost var newc := MoveAll(newtable, oldc);
      Moved(newc, oldc);
      Adopt(newtable, newsize, newc);
      return true;
    }

    /** The end of `hashtable_expand`. */
    method Adopt(newtable: array<Entry?<K, V>>, newsize: nat, ghost newc: seq<seq<Entry<K, V>>>)
      requires primeindex < PRIME_TABLE_LENGTH && newsize == PRIMES[primeindex] == newtable.Length == |newc|
           && InPlace(newc)
      requires forall b | 0 <= b < |newc| :: Linked(newtable[b], newc[b])
      modifies this`table, this`tablelength, this`loadlimit, this`chains
      ensures Shape() && table == newtable && chains == newc && tablelength == newsize
    {
      hide InPlace, LoadLimit;
      table := newtable;
      chains := newc;
      tablelength := newsize;
      loadlimit := LoadLimit(newsize);
    }

    /** The outer loop of `hashtable_expand`. */
    method MoveAll(newtable: array<Entry?<K, V>>, ghost oldc: seq<seq<Entry<K, V>>>)
            returns (ghost newc: seq<seq<Entry<K, V>>>)
      requires table != newtable && tablelength == table.Length == |oldc| && 0 < |oldc| && 0 < newtable.Length
           && InPlace(oldc)
      requires forall a | 0 <= a < |oldc| :: Linked(table[a], oldc[a])
      requires forall b | 0 <= b < newtable.Length :: newtable[b] == null
      modifies table, newtable, Cells(oldc)
      ensures |newc| == newtable.Length && forall b | 0 <= b < |newc| :: Linked(newtable[b], newc[b])
      ensures Holds(newc, Flatten(AllRecs(oldc))) && CameFrom(newc, oldc, |oldc|, 0)
    {
      newc := seq(newtable.Length, _ => []);
      NothingHeld(newc, oldc);
      hide Holds, CameFrom, InPlace, Flatten;
      assert AllRecs(oldc[..0]) == [];
      for i := 0 to tablelength
        invariant forall a | i <= a < |oldc| :: Linked(table[a], oldc[a])
        invariant |newc| == newtable.Length && forall b | 0 <= b < |newc| :: Linked(newtable[b], newc[b])
        invariant Holds(newc, Flatten(AllRecs(oldc[..i]))) && CameFrom(newc, oldc, i, 0)
      {
        RecsSnoc(oldc, i);
        newc := MoveChain(newtable, i, oldc, newc, Flatten(AllRecs(oldc[..i])));
      }
      assert oldc[..tablelength] == oldc;
    }

    /** The head of `hashtable_insert`: the count is raised and the table expanded when it is over its limit. */
    method Grow(memory: bool)
      requires Valid()
      modifies this, table, Cells(chains)
      ensures Shape() && entrycount == |Flatten(chains)| + 1
      ensures Prepared(old(Abs()), memory).count == old(entrycount)
      ensures Abs() == Prepared(old(Abs()), memory).(count := old(entrycount) + 1)
      ensures table == old(table) || fresh(table)
      ensures Cells(chains) <= old(Cells(chains))
    {
      hide Rehash, InPlace, Linked, Flatten, AllRecs, Cells;
      entrycount := entrycount + 1;
      if entrycount > loadlimit {
        var expanded := Expand(memory);
      }
    }

    /** `hashtable_insert`; `memory` and `entry` say which of its allocations succeed. */
    method Insert(k: K, v: V, memory: bool, entry: bool) returns (ok: bool)
      requires Valid()
      modifies this, table, Cells(chains)
      ensures Valid() && ok == entry
      ensures Abs() == HashSpec.Insert(old(Abs()), Rec(k, v, env.hash(k)), memory, entry)
      ensures table == old(table) || fresh(table)
      ensures forall e | e in Cells(chains) :: e in old(Cells(chains)) || fresh(e)
    {
      hide Rehash, InPlace, Linked, Flatten, AllRecs, Push, Cells, Prepared, LoadLimit;
      Grow(memory);
      if !entry {
        entrycount := entrycount - 1;
        return false;
      }
      Link(Rec(k, v, env.hash(k)));
      return true;
    }

    /** The tail of `hashtable_insert`: a new entry at the front of its chain. */
    method Link(rec: Rec<K, V>)
      requires Shape()
      modifies this`chains, table
      ensures Shape() && |Flatten(chains)| == old(|Flatten(chains)|) + 1
      ensures Abs() == old(Abs()).(buckets := Push(old(Abs()).buckets, rec))
      ensures forall e | e in Cells(chains) :: e in old(Cells(chains)) || fresh(e)
    {
      hide Flatten, InPlace, AllRecs, Cells, Push, LoadLimit, Recs;
      var index := rec.h % tablelength;
      var e := new Entry(rec, table[index]);
      table[index] := e;
      PushInPlace(chains, e);
      chains := chains[index := [e] + chains[index]];
    }
  }

  /** The new chains hold the records moved so far, the last moved first. */
  ghost predicate Holds<K(!new), V(!new)>(newc: seq<seq<Entry<K, V>>>, done: seq<Rec<K, V>>)
  {
    forall b | 0 <= b < |newc| :: Recs(newc[b]) == Reverse(Filter(done, InBucket(|newc|, b)))
  }

  /** One more record at the end is one more at the front of the reversed selection. */
  lemma FilterGrows<K, V>(done: seq<Rec<K, V>>, r: Rec<K, V>, p: Rec<K, V> -> bool)
    ensures Reverse(Filter(done + [r], p)) == (if p(r) then [r] else []) + Reverse(Filter(done, p))
  {
    var last := if p(r) then [r] else [];
    FilterConcat(done, [r], p);
    assert Filter([r], p) == last + Filter([], p) == last;
    ReverseConcat(Filter(done, p), last);
    assert Reverse(last) == last;
  }

  /** Moving one more record. */
  lemma HoldsPush<K(!new), V(!new)>(newc: seq<seq<Entry<K, V>>>, done: seq<Rec<K, V>>, e: Entry<K, V>)
    requires 0 < |newc| && Holds(newc, done)
    ensures var i := e.rec.h % |newc|; Holds(newc[i := [e] + newc[i]], done + [e.rec])
  {
    hide Filter, Reverse;
    var n, i := |newc|, e.rec.h % |newc|;
    var more := newc[i := [e] + newc[i]];
    forall b | 0 <= b < n ensures Recs(more[b]) == Reverse(Filter(done + [e.rec], InBucket(n, b))) {
      FilterGrows(done, e.rec, InBucket(n, b));
      if i == b {
        assert Recs([e] + newc[b]) == [e.rec] + Recs(newc[b]);
      } else {
        assert [] + Recs(newc[b]) == Recs(newc[b]);
      }
    }
  }

  /** The entries moved so far are those of the first i old chains and the first j of chain i. */
  ghost predicate CameFrom<K(!new), V(!new)>(newc: seq<seq<Entry<K, V>>>, oldc: seq<seq<Entry<K, V>>>, i: nat, j: nat)
    requires |oldc| > 0
  {
    forall b, e | 0 <= b < |newc| && e in newc[b] ::
      var a := e.rec.h % |oldc|; e in oldc[a] && a <= i && (a == i ==> j <= |oldc[i]| && e in oldc[i][..j])
  }

  lemma CameFromPush<K(!new), V(!new)>(newc: seq<seq<Entry<K, V>>>, oldc: seq<seq<Entry<K, V>>>, i: nat, j: nat)
    requires i < |oldc| && j < |oldc[i]| && InPlace(oldc) && |newc| > 0 && CameFrom(newc, oldc, i, j)
    requires forall x, y | 0 <= x < y < |oldc[i]| :: oldc[i][x] != oldc[i][y]
    ensures var e := oldc[i][j]; var b := e.rec.h % |newc|;
            && (forall x | 0 <= x < |newc| :: e !in newc[x])
            && (forall a | i < a < |oldc| :: e !in oldc[a])
            && CameFrom(newc[b := [e] + newc[b]], oldc, i, j + 1)
  {
    var e := oldc[i][j];
    assert e.rec.h % |oldc| == i;
  }

  lemma CameFromAll<K(!new), V(!new)>(newc: seq<seq<Entry<K, V>>>, oldc: seq<seq<Entry<K, V>>>, i: nat)
    requires i < |oldc| && CameFrom(newc, oldc, i, |oldc[i]|)
    ensures CameFrom(newc, oldc, i + 1, 0)
  {
  }

  /** Before the first transfer. */
  lemma NothingHeld<K(!new), V(!new)>(newc: seq<seq<Entry<K, V>>>, oldc: seq<seq<Entry<K, V>>>)
    requires |oldc| > 0 && forall b | 0 <= b < |newc| :: newc[b] == []
    ensures Holds(newc, []) && CameFrom(newc, oldc, 0, 0)
    ensures Flatten(AllRecs(oldc[..0])) == []
  {
  }

  /** The records of one more chain. */
  lemma RecsSnoc<K(!new), V(!new)>(cs: seq<seq<Entry<K, V>>>, i: nat)
    requires i < |cs|
    ensures Flatten(AllRecs(cs[..i + 1])) == Flatten(AllRecs(cs[..i])) + Recs(cs[i])
  {
    hide Flatten;
    FlattenSnoc(AllRecs(cs), i);
    assert AllRecs(cs)[..i + 1] == AllRecs(cs[..i + 1]) && AllRecs(cs)[..i] == AllRecs(cs[..i]);
  }

  /** After the last transfer the new chains are those of `Rehash`. */
  lemma Moved<K(!new), V(!new)>(newc: seq<seq<Entry<K, V>>>, oldc: seq<seq<Entry<K, V>>>)
    requires |newc| > 0 && |oldc| > 0
    requires Holds(newc, Flatten(AllRecs(oldc))) && CameFrom(newc, oldc, |oldc|, 0)
    ensures AllRecs(newc) == Rehash(AllRecs(oldc), |newc|)
    ensures InPlace(newc) && Cells(newc) <= Cells(oldc)
    ensures |Flatten(newc)| == |Flatten(oldc)|
  {
    hide Filter, Reverse, Flatten;
    var b, n := AllRecs(oldc), |newc|;
    assert AllRecs(newc) == Rehash(b, n);
    RehashPlaced(b, n);
    RehashKeepsEntries(b, n);
    FlattenLength(oldc);
    FlattenLength(newc);
    PlacedIsInPlace(newc);
    CellsStay(newc, oldc);
  }

  lemma PlacedIsInPlace<K(!new), V(!new)>(cs: seq<seq<Entry<K, V>>>)
    requires Placed(AllRecs(cs))
    ensures InPlace(cs)
  {
    forall i, j | 0 <= i < |cs| && 0 <= j < |cs[i]| ensures cs[i][j].rec.h % |cs| == i {
      assert AllRecs(cs)[i][j] == cs[i][j].rec;
    }
  }

  lemma CellsStay<K(!new), V(!new)>(newc: seq<seq<Entry<K, V>>>, oldc: seq<seq<Entry<K, V>>>)
    requires |oldc| > 0 && CameFrom(newc, oldc, |oldc|, 0)
    ensures Cells(newc) <= Cells(oldc)
  {
    forall e | e in Cells(newc) ensures e in Cells(oldc) {
      var i, j :| 0 <= i < |newc| && 0 <= j < |newc[i]| && newc[i][j] == e;
      assert e in newc[i] && e in oldc[e.rec.h % |oldc|];
    }
  }

  /** A new entry in front of its chain. */
  lemma PushInPlace<K(!new), V(!new)>(cs: seq<seq<Entry<K, V>>>, e: Entry<K, V>)
    requires |cs| > 0 && InPlace(cs)
    ensures var i := e.rec.h % |cs|; var ds := cs[i := [e] + cs[i]];
            && InPlace(ds) && Cells(ds) == Cells(cs) + {e} && |Flatten(ds)| == |Flatten(cs)| + 1
            && AllRecs(ds) == Push(AllRecs(cs), e.rec)
  {
    var i := e.rec.h % |cs|;
    var ds := cs[i := [e] + cs[i]];
    FlattenUpdate(cs, i, [e] + cs[i]);
    hide Flatten;
    assert Recs(ds[i]) == [e.rec] + Recs(cs[i]);
    assert ds[i][0] == e;
    forall x | x in Cells(cs) ensures x in Cells(ds) {
      var a, b :| 0 <= a < |cs| && 0 <= b < |cs[a]| && cs[a][b] == x;
      assert x == if a == i then ds[a][b + 1] else ds[a][b];
    }
  }

  /** A whole run on the heap is the run of the specification. */
  method Replay<K(!new), V(!new)>(h: Hashtable<K, V>, ops: seq<Op<K, V>>)
    requires h.Valid()
    modifies h, h.table, Cells(h.chains)
    ensures h.Valid() && h.Abs() == Run(old(h.Abs()), ops, h.env)
  {
    hide InPlace, Flatten, HashSpec.Insert, HashSpec.Remove;
    assert |h.Abs().buckets| > 0 by { h.AbsInv(); }
    ghost var start, cells := h.Abs(), Cells(h.chains);
    for i := 0 to |ops|
      invariant h.Valid() && |h.Abs().buckets| > 0 && Run(h.Abs(), ops[i..], h.env) == Run(start, ops, h.env)
      invariant h.table == old(h.table) || fresh(h.table)
      invariant forall e | e in Cells(h.chains) :: e in cells || fresh(e)
    {
      assert ops[i..][0] == ops[i] && ops[i..][1..] == ops[i + 1..];
      match ops[i]
      case InsertOp(k, v, memory, entry) =>
        var ok := h.Insert(k, v, memory, entry);
      case RemoveOp(k) =>
        var v := h.Remove(k);
      case SearchOp(k) =>
        var v := h.Search(k);
    }
  }
}
