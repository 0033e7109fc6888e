/**
 * The bounded priority queue that collects search results: a list kept sorted by
 * ascending priority (distance), capped at `size` entries when `size` is non-zero.
 */
module PriorityQueues {
  import opened Wrappers

  /** A queued result: the element index `data` and its distance `priority`. */
  datatype Entry = Entry(data: nat, priority: real)

  /** A result as the queue's list hands it out: the datum as `i`, the priority as `d`. */
  datatype Hit = Hit(i: nat, d: real)

  /** Ascending by priority. */
  ghost predicate Sorted(c: seq<Entry>) {
    forall j, k :: 0 <= j < k < |c| ==> c[j].priority <= c[k].priority
  }

  /** Hits ascending by distance. */
  ghost predicate HitsSorted(hits: seq<Hit>) {
    forall j, k :: 0 <= j < k < |hits| ==> hits[j].d <= hits[k].d
  }

  /** Putting an entry of priority `p` at position `k` keeps `c` sorted. */
  ghost predicate InsertionPoint(c: seq<Entry>, k: int, p: real) {
    && 0 <= k <= |c|
    && (forall j :: 0 <= j < k ==> c[j].priority <= p)
    && (forall j :: k <= j < |c| ==> p <= c[j].priority)
  }

  /**
   * The queue holds as much as its cap lets it: exactly `size` entries for a
   * positive cap; a negative cap admits nothing, so it is always saturated; a zero
   * cap means no cap.
   */
  ghost predicate Saturated(c: seq<Entry>, size: int) {
    size < 0 || (size > 0 && |c| == size)
  }

  /** Saturated, and no entry is worse than priority `t`. */
  ghost predicate SaturatedWithin(c: seq<Entry>, size: int, t: real) {
    Saturated(c, size) && forall j :: 0 <= j < |c| ==> c[j].priority <= t
  }

  /**
   * The queue accounts for `x`: it holds `x`, or it is saturated with entries no
   * worse than `x`, so leaving `x` out keeps the `size` best.
   */
  ghost predicate Covers(c: seq<Entry>, size: int, x: Entry) {
    x in c || SaturatedWithin(c, size, x.priority)
  }

  /**
   * The queue invariant, over the contents `c` and everything ever offered:
   * sorted, within the cap, a sub-multiset of what was offered that equals it until
   * the cap is reached, and every offered entry it does not hold (counting copies)
   * no better than any it holds, with the queue full; so the contents are the
   * `size` smallest priorities offered so far.
   */
  ghost predicate Invariant(c: seq<Entry>, size: int, inserted: multiset<Entry>) {
    && Sorted(c)
    && (size < 0 ==> c == [])
    && (size > 0 ==> |c| <= size)
    && multiset(c) <= inserted
    && (!Saturated(c, size) ==> multiset(c) == inserted)
    && (forall x :: x in inserted - multiset(c) ==> SaturatedWithin(c, size, x.priority))
  }

  /** Under the invariant the queue accounts for every offered entry. */
  lemma InvariantCovers(c: seq<Entry>, size: int, inserted: multiset<Entry>)
    requires Invariant(c, size, inserted)
    ensures forall x :: x in inserted ==> Covers(c, size, x)
  {
    forall x | x in inserted
      ensures Covers(c, size, x)
    {
      if x !in c {
        assert x in inserted - multiset(c);
      }
    }
  }

  /** Going from `c` to `n` loses no covered entry. */
  ghost predicate CoversKept(c: seq<Entry>, n: seq<Entry>, size: int) {
    forall x :: Covers(c, size, x) ==> Covers(n, size, x)
  }

  /** Going from `c` to `n` keeps every "saturated within t" bound with `p <= t`. */
  ghost predicate WithinKept(c: seq<Entry>, n: seq<Entry>, size: int, p: real) {
    forall t :: SaturatedWithin(c, size, t) && p <= t ==> SaturatedWithin(n, size, t)
  }

  /** Losing no covered entry is transitive. */
  lemma CoversKeptTrans(a: seq<Entry>, b: seq<Entry>, c: seq<Entry>, size: int)
    requires CoversKept(a, b, size) && CoversKept(b, c, size)
    ensures CoversKept(a, c, size)
  {
  }

  /** A saturated queue within `t` is within every larger `t'`. */
  lemma WithinMonotone(c: seq<Entry>, size: int, t: real, t': real)
    requires SaturatedWithin(c, size, t) && t <= t'
    ensures SaturatedWithin(c, size, t')
  {
  }

  /** An entry of priority `p` is turned away: the cap is reached and every entry is better. */
  ghost predicate Rejects(c: seq<Entry>, size: int, p: real) {
    Saturated(c, size) && forall j :: 0 <= j < |c| ==> c[j].priority < p
  }

  /**
   * The contents after inserting `e` at position `k`, with the last entry dropped
   * when that takes them past a non-zero cap: the entries before `k` stay, `e`
   * takes position `k`, and the multiset gains `e` and loses the dropped entry,
   * which is the old last entry or, for `k == |c|`, `e` itself.
   */
  function Spliced(c: seq<Entry>, k: int, e: Entry, size: int): (r: seq<Entry>)
    requires 0 <= k <= |c|
    ensures |r| == if size != 0 && |c| + 1 > size then |c| else |c| + 1
    ensures r[..k] == c[..k] && (k < |r| ==> r[k] == e)
    ensures !(size != 0 && |c| + 1 > size) ==> multiset(r) == multiset(c) + multiset{e}
    ensures size != 0 && |c| + 1 > size && k < |c| ==> multiset(r) + multiset{c[|c| - 1]} == multiset(c) + multiset{e}
    ensures size != 0 && |c| + 1 > size && k == |c| ==> r == c
  {
    var s := c[..k] + [e] + c[k..];
    assert c == c[..k] + c[k..];
    assert multiset(s) == multiset(c) + multiset{e};
    if size != 0 && |s| > size then
      assert s == s[..|s| - 1] + [s[|s| - 1]];
      assert k < |c| ==> s[|s| - 1] == c[|c| - 1];
      s[..|s| - 1]
    else
      s
  }

  /** Splicing at an insertion point keeps the contents sorted and adds exactly the new entry. */
  lemma SplicedParts(c: seq<Entry>, k: int, e: Entry)
    requires Sorted(c) && InsertionPoint(c, k, e.priority)
    ensures Sorted(c[..k] + [e] + c[k..])
    ensures multiset(c[..k] + [e] + c[k..]) == multiset(c) + multiset{e}
    ensures forall x :: x in c ==> x in c[..k] + [e] + c[k..]
  {
    var s := c[..k] + [e] + c[k..];
    forall i, j | 0 <= i < j < |s|
      ensures s[i].priority <= s[j].priority
    {
      if j < k || k < i {
      } else if i == k {
        assert s[j] == c[j - 1];
      } else if j == k {
        assert s[i] == c[i];
      } else {
        assert s[i] == c[i] && s[j] == c[j - 1];
      }
    }
    assert c == c[..k] + c[k..];
  }

  /**
   * When the cap is reached, inserting and then dropping the last entry evicts the old
   * tail: what is left is sorted, as long as the cap, and no worse than the
   * evicted entry, and the evicted entry is the only one lost.
   */
  lemma {:induction false} EvictsTail(c: seq<Entry>, size: int, k: int, e: Entry)
    requires Sorted(c) && InsertionPoint(c, k, e.priority)
    requires size > 0 && |c| == size && k < size
    ensures Sorted(Spliced(c, k, e, size)) && |Spliced(c, k, e, size)| == size
    ensures forall j :: 0 <= j < size ==> Spliced(c, k, e, size)[j].priority <= c[|c| - 1].priority
    ensures forall x :: x in c && x !in Spliced(c, k, e, size) ==> x == c[|c| - 1]
  {
    var s := c[..k] + [e] + c[k..];
    var n := Spliced(c, k, e, size);
    SplicedParts(c, k, e);
    assert s == n + [s[|s| - 1]];
    assert s[|s| - 1] == c[|c| - 1];
    forall x | x in c && x !in n
      ensures x == c[|c| - 1]
    {
      var w :| 0 <= w < |s| && s[w] == x;
    }
  }

  /**
   * An accepted insertion keeps the invariant, never lets a covered entry become
   * uncovered, and keeps every "saturated within t" bound that the new entry
   * respects.
   */
  lemma {:induction false} SplicedKeepsInvariant(c: seq<Entry>, size: int, inserted: multiset<Entry>, k: int, e: Entry)
    requires Invariant(c, size, inserted)
    requires InsertionPoint(c, k, e.priority)
    requires size == 0 || k < size
    ensures Invariant(Spliced(c, k, e, size), size, inserted + multiset{e})
    ensures CoversKept(c, Spliced(c, k, e, size), size)
    ensures WithinKept(c, Spliced(c, k, e, size), size, e.priority)
  {
    var n := Spliced(c, k, e, size);
    var ins := inserted + multiset{e};
    SplicedParts(c, k, e);
    if size != 0 && |c| + 1 > size {
      var t := c[|c| - 1];
      EvictsTail(c, size, k, e);
      EvictedKeepsCovers(c, size, k, e);
      assert multiset(n) <= ins by {
        assert multiset(n) <= multiset(n) + multiset{t};
        assert multiset(c) + multiset{e} <= ins;
      }
      assert Saturated(n, size);
      forall x | x in ins - multiset(n)
        ensures SaturatedWithin(n, size, x.priority)
      {
        assert multiset(n)[x] + multiset{t}[x] == multiset(c)[x] + multiset{e}[x];
        if x != t {
          assert x in inserted - multiset(c);
          assert t.priority <= x.priority;
        }
      }
    } else {
      assert n == c[..k] + [e] + c[k..];
      assert !Saturated(c, size);
      assert multiset(n) == ins;
      forall x | Covers(c, size, x)
        ensures Covers(n, size, x)
      {
        assert x in c;
      }
    }
  }

  /** With the cap reached, an accepted insertion keeps covering what was covered. */
  lemma {:induction false} EvictedKeepsCovers(c: seq<Entry>, size: int, k: int, e: Entry)
    requires Sorted(c) && InsertionPoint(c, k, e.priority)
    requires size > 0 && |c| == size && k < size
    ensures CoversKept(c, Spliced(c, k, e, size), size)
    ensures WithinKept(c, Spliced(c, k, e, size), size, e.priority)
  {
    var n := Spliced(c, k, e, size);
    EvictsTail(c, size, k, e);
    assert e.priority <= c[|c| - 1].priority by {
      assert e.priority <= c[k].priority;
    }
    forall x | Covers(c, size, x)
      ensures Covers(n, size, x)
    {
      if x in c && x !in n {
        assert x == c[|c| - 1];
      } else if x !in c {
        assert x.priority >= c[|c| - 1].priority;
      }
    }
  }

  /** A rejected insertion changes nothing but still keeps the invariant. */
  lemma RejectedKeepsInvariant(c: seq<Entry>, size: int, inserted: multiset<Entry>, k: int, e: Entry)
    requires Invariant(c, size, inserted)
    requires 0 <= k <= |c| && forall j :: 0 <= j < k ==> c[j].priority < e.priority
    requires size != 0 && k >= size
    ensures Rejects(c, size, e.priority)
    ensures Invariant(c, size, inserted + multiset{e})
  {
    forall x | x in inserted + multiset{e} - multiset(c)
      ensures SaturatedWithin(c, size, x.priority)
    {
      if x != e {
        assert x in inserted - multiset(c);
      }
    }
  }

  /** `n` is `c` with `e` spliced in at an insertion point and the tail cut to the cap. */
  ghost predicate SplicedIn(c: seq<Entry>, n: seq<Entry>, size: int, e: Entry) {
    exists k :: InsertionPoint(c, k, e.priority) && n == Spliced(c, k, e, size)
  }

  /**
   * One call of insert on the contents `c`, with `k` the insertion point found by
   * binary search: the entry is turned away exactly when the cap is non-zero and
   * `k` reaches it; otherwise it is spliced in. Either way the invariant holds of
   * everything offered, no covered entry is lost, and every "saturated within t"
   * bound the entry respects is kept.
   */
  lemma {:induction false} InsertKeepsInvariant(c: seq<Entry>, size: int, inserted: multiset<Entry>, k: int, e: Entry)
    requires Invariant(c, size, inserted)
    requires InsertionPoint(c, k, e.priority)
    requires size != 0 && k >= size ==> forall j :: 0 <= j < k ==> c[j].priority < e.priority
    ensures Rejects(c, size, e.priority) <==> !(size == 0 || k < size)
    ensures !(size == 0 || k < size) ==> Invariant(c, size, inserted + multiset{e})
    ensures size == 0 || k < size ==>
      && Invariant(Spliced(c, k, e, size), size, inserted + multiset{e})
      && CoversKept(c, Spliced(c, k, e, size), size)
      && WithinKept(c, Spliced(c, k, e, size), size, e.priority)
  {
    if size == 0 || k < size {
      SplicedKeepsInvariant(c, size, inserted, k, e);
      if size != 0 && Saturated(c, size) {
        assert size > 0 && k < |c|;
        assert e.priority <= c[k].priority;
      }
    } else {
      RejectedKeepsInvariant(c, size, inserted, k, e);
    }
  }

  /**
   * What insert reports: for a full queue under a non-zero cap, its worst
   * priority, which on sorted contents is one the queue holds and bounds all of
   * them; otherwise nothing.
   */
  function Worst(c: seq<Entry>, size: int): (w: Option<real>)
    ensures w.Some? <==> size != 0 && |c| == size
    ensures w.Some? ==> exists j :: 0 <= j < |c| && c[j].priority == w.value
    ensures w.Some? && Sorted(c) ==> SaturatedWithin(c, size, w.value)
  {
    if size != 0 && |c| == size then Some(c[|c| - 1].priority) else None
  }

  class PriorityQueue {
    /** The cap; 0 means unbounded. */
    const size: int
    /** Queued entries, ascending by priority. */
    var contents: seq<Entry>
    /** Every entry ever offered to insert. */
    ghost var Inserted: multiset<Entry>

    ghost predicate Valid()
      reads this
    {
      Invariant(contents, size, Inserted)
    }

    /** PriorityQueue(size): an empty queue. */
    constructor (size: int)
      ensures this.size == size && contents == [] && Inserted == multiset{}
      ensures Valid()
    {
      this.size := size;
      contents := [];
      Inserted := multiset{};
    }

    /** The `length` getter. */
    function Length(): (n: nat)
      reads this
      ensures n == |contents|
      ensures Valid() && size > 0 ==> n <= size
    {
      |contents|
    }

    /**
     * binaryIndexOf: an index holding `priority`, or `-1 - p` for the insertion
     * point `p` when no entry has that priority.
     */
    method BinaryIndexOf(priority: real) returns (r: int)
      requires Sorted(contents)
      ensures 0 <= r ==> r < |contents| && contents[r].priority == priority
      ensures r < 0 ==>
        && -1 - r <= |contents|
        && (forall j :: 0 <= j < -1 - r ==> contents[j].priority < priority)
        && (forall j :: -1 - r <= j < |contents| ==> priority < contents[j].priority)
    {
      var minIndex, maxIndex := 0, |contents| - 1;
      while minIndex <= maxIndex
        invariant 0 <= minIndex <= maxIndex + 1 <= |contents|
        invariant forall j :: 0 <= j < minIndex ==> contents[j].priority < priority
        invariant forall j :: maxIndex < j < |contents| ==> priority < contents[j].priority
      {
        var currentIndex := (minIndex + maxIndex) / 2;
        var currentElement := contents[currentIndex].priority;
        if currentElement < priority {
          minIndex := currentIndex + 1;
        } else if currentElement > priority {
          maxIndex := currentIndex - 1;
        } else {
          return currentIndex;
        }
      }
      return -1 - minIndex;
    }

    /**
     * insert: splices the entry in at its sorted place unless the cap turns it
     * away, evicts the tail if the cap is exceeded, and reports the worst queued
     * priority once the queue holds exactly `size` entries.
     */
    method Insert(data: nat, priority: real) returns (worst: Option<real>)
      requires Valid()
      modifies this
      ensures Valid()
      ensures Inserted == old(Inserted) + multiset{Entry(data, priority)}
      ensures Rejects(old(contents), size, priority) ==> contents == old(contents)
      ensures !Rejects(old(contents), size, priority) ==> SplicedIn(old(contents), contents, size, Entry(data, priority))
      ensures worst == Worst(contents, size)
      ensures worst.Some? ==> SaturatedWithin(contents, size, worst.value)
      ensures CoversKept(old(contents), contents, size)
      ensures WithinKept(old(contents), contents, size, priority)
    {
      var r := BinaryIndexOf(priority);
      var index := if r < 0 then -1 - r else r;
      var e := Entry(data, priority);
      assert InsertionPoint(contents, index, priority);
      assert 0 <= r && size != 0 ==> index < size;
      InsertKeepsInvariant(contents, size, Inserted, index, e);
      if size == 0 || index < size {
        contents := Spliced(contents, index, e, size);
        assert SplicedIn(old(contents), contents, size, e);
      }
      Inserted := Inserted + multiset{e};
      worst := Worst(contents, size);
      assert Valid();
      assert CoversKept(old(contents), contents, size);
      assert WithinKept(old(contents), contents, size, priority);
      assert worst.Some? ==> SaturatedWithin(contents, size, worst.value);
    }

    /** list(): the queued entries as hits, ascending by distance. */
    function List(): (hits: seq<Hit>)
      reads this
      ensures |hits| == |contents|
      ensures forall j :: 0 <= j < |hits| ==> hits[j] == Hit(contents[j].data, contents[j].priority)
      ensures Valid() ==> HitsSorted(hits)
    {
      seq(|contents|, j requires 0 <= j < |contents| reads this => Hit(contents[j].data, contents[j].priority))
    }
  }
}
