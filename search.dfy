/**
 * k-nearest-neighbour search in a vp-tree: a depth-first walk that offers each
 * visited element to a bounded priority queue and prunes the subtrees that the
 * current radius `tau` and the node's distance bounds rule out.
 *
 * Results are always sound (real elements of the tree, their true query distance,
 * passing the filter, inside the search radius). Completeness, that every eligible
 * element is returned unless the queue is full of elements no farther, rests on
 * the triangle inequality between the query distance and the distance the tree
 * was built with, so it is stated under that hypothesis.
 */
module VPSearch {
  import opened Wrappers
  import opened Distances
  import opened PriorityQueues
  import opened VPTrees

  /**
   * What one search call works with: the query object `q`, the elements `S`, the
   * query distance `dq`, the optional filter and the search radius.
   */
  datatype Query<!T> = Query(q: T, S: seq<T>, dq: (T, T) -> real, filter: Option<T -> bool>, radius: Bound)

  /** The search radius: a missing maximum distance, or one of zero, means no bound at all. */
  function Radius(maxDistance: Option<real>): (b: Bound)
    ensures b.Infinity? <==> maxDistance.None? || maxDistance.value == 0.0
    ensures b.Finite? ==> b.r == maxDistance.value
  {
    if maxDistance.Some? && maxDistance.value != 0.0 then Finite(maxDistance.value) else Infinity
  }

  /** The query distance: the caller's, when given, else the distance the tree was built with. */
  function QueryDistance<T>(t: VPTree<T>, queryDist: Option<(T, T) -> real>): (dq: (T, T) -> real)
    ensures queryDist.None? ==> dq == t.distance
    ensures queryDist.Some? ==> dq == queryDist.value
  {
    if queryDist.Some? then queryDist.value else t.distance
  }

  /**
   * The radius after an insertion: a reported worst priority becomes the new
   * radius, except a worst priority of 0, which the search reads as no report.
   */
  function Tighten(worst: Option<real>, tau: Bound): (t: Bound)
    ensures worst.Some? && worst.value != 0.0 ==> t == Finite(worst.value)
    ensures worst.None? || worst.value == 0.0 ==> t == tau
  {
    if worst.Some? && worst.value != 0.0 then Finite(worst.value) else tau
  }

  /** An element passes when there is no filter or the filter accepts it. */
  predicate Passes<T>(filter: Option<T -> bool>, x: T): (r: bool)
    ensures filter.None? ==> r
    ensures filter.Some? ==> (r <==> filter.value(x))
  {
    filter.None? || filter.value(x)
  }

  /**
   * The test `m - tau < dist` (or `mu - tau < dist`) on the lower bound `lo`: it
   * fails only for a finite radius with `dist + tau <= lo`, where everything at
   * least `lo` from the vantage point is at least `tau` from the query.
   */
  predicate AboveLower(lo: real, tau: Bound, dist: real): (r: bool)
    ensures !r <==> tau.Finite? && dist + tau.r <= lo
  {
    tau.Infinity? || lo - tau.r < dist
  }

  /**
   * The test `dist < M + tau` (or `dist < mu + tau`) on the upper bound `hi`: it
   * fails only for a finite radius with `hi + tau <= dist`, where everything at
   * most `hi` from the vantage point is at least `tau` from the query.
   */
  predicate BelowUpper(dist: real, hi: real, tau: Bound): (r: bool)
    ensures !r <==> tau.Finite? && hi + tau.r <= dist
  {
    tau.Infinity? || dist < hi + tau.r
  }

  /**
   * Going from `ins0` to `ins`, every entry was added at most as many times as its
   * index occurs in `js`: only the elements `js` were offered, each once per occurrence.
   */
  ghost predicate OfferedFrom(ins0: multiset<Entry>, ins: multiset<Entry>, js: multiset<nat>) {
    forall x :: ins[x] <= ins0[x] + js[x.data]
  }

  /** Adding one entry offers from its index; adding nothing offers from any indices. */
  lemma OfferedOne(ins0: multiset<Entry>, e: Entry, js: multiset<nat>)
    ensures OfferedFrom(ins0, ins0 + multiset{e}, multiset{e.data})
    ensures OfferedFrom(ins0, ins0, js)
  {
  }

  /** Offering from two index multisets in turn offers from their union. */
  lemma OfferedTrans(a: multiset<Entry>, b: multiset<Entry>, c: multiset<Entry>, js: multiset<nat>, ks: multiset<nat>)
    requires OfferedFrom(a, b, js) && OfferedFrom(b, c, ks)
    ensures OfferedFrom(a, c, js + ks)
  {
  }

  /** The queue entry for element `j`: its index and its query distance. */
  ghost function EntryOf<T>(j: nat, Q: Query<T>): Entry
    requires j < |Q.S|
  {
    Entry(j, Q.dq(Q.q, Q.S[j]))
  }

  /** Element `j` is one the search should find: it passes the filter and lies inside the radius. */
  ghost predicate Eligible<T>(j: nat, Q: Query<T>) {
    j < |Q.S| && Passes(Q.filter, Q.S[j]) && Below(Q.dq(Q.q, Q.S[j]), Q.radius)
  }

  /** An entry that may be queued: an element of the tree, at its query distance, eligible. */
  ghost predicate Sound<T>(x: Entry, Q: Query<T>, root: Node) {
    x.data in Indices(root) && Eligible(x.data, Q) && x.priority == Q.dq(Q.q, Q.S[x.data])
  }

  /** Everything offered to the queue so far is sound. */
  ghost predicate AllSound<T>(inserted: multiset<Entry>, Q: Query<T>, root: Node) {
    forall x :: x in inserted ==> Sound(x, Q, root)
  }

  /**
   * The running radius `tau` is the search radius, or a tighter finite bound such
   * that the queue is saturated with entries no farther than it.
   */
  ghost predicate TauOk(c: seq<Entry>, size: int, tau: Bound, radius: Bound) {
    tau == radius || (tau.Finite? && AtMost(tau.r, radius) && SaturatedWithin(c, size, tau.r))
  }

  /** The queue accounts for every eligible element among the indices `js`. */
  ghost predicate CoveredPart<T>(c: seq<Entry>, size: int, Q: Query<T>, js: seq<nat>) {
    forall j :: j in js && Eligible(j, Q) ==> Covers(c, size, EntryOf(j, Q))
  }

  /**
   * The triangle inequality between the query distance `dq` and the build
   * distance `db`, in the two forms that pruning uses.
   */
  ghost predicate Triangle<T>(Q: Query<T>, db: (T, T) -> real) {
    forall a, b :: 0 <= a < |Q.S| && 0 <= b < |Q.S| ==>
      && db(Q.S[a], Q.S[b]) <= Q.dq(Q.q, Q.S[a]) + Q.dq(Q.q, Q.S[b])
      && Q.dq(Q.q, Q.S[a]) <= Q.dq(Q.q, Q.S[b]) + db(Q.S[a], Q.S[b])
  }

  /** A covered part stays covered while no covered entry is lost. */
  lemma CoveredPartKept<T>(c: seq<Entry>, c': seq<Entry>, size: int, Q: Query<T>, js: seq<nat>)
    requires CoveredPart(c, size, Q, js) && CoversKept(c, c', size)
    ensures CoveredPart(c', size, Q, js)
  {
  }

  /** An eligible element at least `tau` away is accounted for by a queue the radius allows. */
  lemma FarIsCovered<T>(c: seq<Entry>, size: int, Q: Query<T>, tau: Bound, j: nat)
    requires TauOk(c, size, tau, Q.radius) && tau.Finite?
    requires Eligible(j, Q) && tau.r <= Q.dq(Q.q, Q.S[j])
    ensures Covers(c, size, EntryOf(j, Q))
  {
    if tau != Q.radius {
      WithinMonotone(c, size, tau.r, Q.dq(Q.q, Q.S[j]));
    }
  }

  /**
   * Skipping a subtree whose build distances from the vantage point `i` are at
   * least `lo`, because `dist <= lo - tau`, loses nothing: by the triangle
   * inequality all its elements are at least `tau` from the query.
   */
  lemma PrunedBelow<T>(c: seq<Entry>, size: int, Q: Query<T>, db: (T, T) -> real, i: nat, dist: real,
                       lo: real, hi: real, sub: Node, tau: Bound)
    requires Triangle(Q, db) && i < |Q.S| && dist == Q.dq(Q.q, Q.S[i])
    requires forall j :: j in Indices(sub) ==> j < |Q.S| && lo <= db(Q.S[i], Q.S[j]) <= hi
    requires TauOk(c, size, tau, Q.radius) && !AboveLower(lo, tau, dist)
    ensures CoveredPart(c, size, Q, Indices(sub))
  {
    forall j | j in Indices(sub) && Eligible(j, Q)
      ensures Covers(c, size, EntryOf(j, Q))
    {
      assert db(Q.S[i], Q.S[j]) <= Q.dq(Q.q, Q.S[i]) + Q.dq(Q.q, Q.S[j]);
      FarIsCovered(c, size, Q, tau, j);
    }
  }

  /**
   * Skipping a subtree whose build distances from the vantage point `i` are at
   * most `hi`, because `hi + tau <= dist`, loses nothing: by the triangle
   * inequality all its elements are at least `tau` from the query.
   */
  lemma PrunedAbove<T>(c: seq<Entry>, size: int, Q: Query<T>, db: (T, T) -> real, i: nat, dist: real,
                       lo: real, hi: real, sub: Node, tau: Bound)
    requires Triangle(Q, db) && i < |Q.S| && dist == Q.dq(Q.q, Q.S[i])
    requires forall j :: j in Indices(sub) ==> j < |Q.S| && lo <= db(Q.S[i], Q.S[j]) <= hi
    requires TauOk(c, size, tau, Q.radius) && !BelowUpper(dist, hi, tau)
    ensures CoveredPart(c, size, Q, Indices(sub))
  {
    forall j | j in Indices(sub) && Eligible(j, Q)
      ensures Covers(c, size, EntryOf(j, Q))
    {
      assert Q.dq(Q.q, Q.S[i]) <= Q.dq(Q.q, Q.S[j]) + db(Q.S[i], Q.S[j]);
      FarIsCovered(c, size, Q, tau, j);
    }
  }

  /**
   * Tests one element against the running radius and the filter and, when it is
   * closer than the radius and passes, queues it and tightens the radius. Afterwards the element is accounted for if eligible, and the radius is still
   * justified by the queue.
   */
  method Offer<T>(W: PriorityQueue, Q: Query<T>, ghost root: Node, id: nat, dist: real, tau: Bound)
    returns (tau': Bound)
    requires W.Valid() && AllSound(W.Inserted, Q, root) && TauOk(W.contents, W.size, tau, Q.radius)
    requires id in Indices(root) && id < |Q.S| && dist == Q.dq(Q.q, Q.S[id])
    modifies W
    ensures W.Valid() && AllSound(W.Inserted, Q, root) && TauOk(W.contents, W.size, tau', Q.radius)
    ensures Below(dist, tau) && Passes(Q.filter, Q.S[id]) ==>
      && W.Inserted == old(W.Inserted) + multiset{Entry(id, dist)}
      && tau' == Tighten(Worst(W.contents, W.size), tau)
    ensures !(Below(dist, tau) && Passes(Q.filter, Q.S[id])) ==>
      W.contents == old(W.contents) && W.Inserted == old(W.Inserted) && tau' == tau
    ensures OfferedFrom(old(W.Inserted), W.Inserted, multiset{id})
    ensures CoversKept(old(W.contents), W.contents, W.size)
    ensures Eligible(id, Q) ==> Covers(W.contents, W.size, EntryOf(id, Q))
  {
    OfferedOne(W.Inserted, Entry(id, dist), multiset{id});
    if Below(dist, tau) && Passes(Q.filter, Q.S[id]) {
      ghost var c0, ins0 := W.contents, W.Inserted;
      var worst := W.Insert(id, dist);
      tau' := Tighten(worst, tau);
      Accepted(c0, W.contents, W.size, ins0, W.Inserted, Q, root, Entry(id, dist), worst, tau);
    } else {
      tau' := tau;
      if Eligible(id, Q) {
        FarIsCovered(W.contents, W.size, Q, tau, id);
      }
    }
  }

  /**
   * An accepted offer of entry `e`, turning contents `c0` into `c`: the queue
   * stays sound, the tightened radius is justified, and `e` is accounted for.
   */
  lemma Accepted<T>(c0: seq<Entry>, c: seq<Entry>, size: int, ins0: multiset<Entry>, ins: multiset<Entry>,
                    Q: Query<T>, root: Node, e: Entry, worst: Option<real>, tau: Bound)
    requires AllSound(ins0, Q, root) && TauOk(c0, size, tau, Q.radius)
    requires e.data in Indices(root) && e.data < |Q.S| && e.priority == Q.dq(Q.q, Q.S[e.data])
    requires Passes(Q.filter, Q.S[e.data]) && Below(e.priority, tau)
    requires Invariant(c, size, ins) && ins == ins0 + multiset{e}
    requires worst == Worst(c, size) && (worst.Some? ==> SaturatedWithin(c, size, worst.value))
    requires WithinKept(c0, c, size, e.priority)
    ensures AllSound(ins, Q, root)
    ensures TauOk(c, size, Tighten(worst, tau), Q.radius)
    ensures Covers(c, size, e)
  {
    assert Sound(e, Q, root);
    if worst.Some? && worst.value != 0.0 {
      assert c[|c| - 1] in multiset(c);
      assert Sound(c[|c| - 1], Q, root);
    }
    assert e in ins;
  }

  /** Every index of `node` is one of `root`'s. */
  ghost predicate Within(node: Node, root: Node) {
    forall j :: j in Indices(node) ==> j in Indices(root)
  }

  /** The children of an inner node inherit its index facts. */
  lemma ChildrenWithin(node: Node, root: Node, n: nat)
    requires node.Inner? && Within(node, root) && IndicesBelow(node, n)
    ensures Within(node.L, root) && IndicesBelow(node.L, n)
    ensures Within(node.R, root) && IndicesBelow(node.R, n)
  {
    assert Indices(node) == [node.i] + Indices(node.L) + Indices(node.R);
    forall j | j in Indices(node.L)
      ensures j in Indices(node)
    {
    }
    forall j | j in Indices(node.R)
      ensures j in Indices(node)
    {
    }
  }

  /**
   * doSearch: visits `node`, offering its elements to `W` and descending into the
   * children the bounds do not rule out. It keeps the queue valid and sound,
   * loses no covered entry and, under the triangle inequality for a tree whose
   * bounds hold, accounts for every eligible element of the subtree.
   */
  method DoSearch<T>(W: PriorityQueue, Q: Query<T>, ghost db: (T, T) -> real, ghost root: Node, node: Node, tau: Bound)
    returns (tau': Bound)
    requires W.Valid() && AllSound(W.Inserted, Q, root) && TauOk(W.contents, W.size, tau, Q.radius)
    requires Within(node, root) && IndicesBelow(node, |Q.S|)
    modifies W
    ensures W.Valid() && AllSound(W.Inserted, Q, root) && TauOk(W.contents, W.size, tau', Q.radius)
    ensures OfferedFrom(old(W.Inserted), W.Inserted, multiset(Indices(node)))
    ensures CoversKept(old(W.contents), W.contents, W.size)
    ensures Triangle(Q, db) && Bounded(node, Q.S, db) ==> CoveredPart(W.contents, W.size, Q, Indices(node))
    decreases node, 3
  {
    match node
    case Null =>
      tau' := tau;
    case Bucket(items) =>
      assert Indices(node) == items;
      tau' := SearchBucket(W, Q, root, items, tau);
    case Point(i) =>
      assert i in Indices(node);
      var dist := Q.dq(Q.q, Q.S[i]);
      tau' := Offer(W, Q, root, i, dist, tau);
    case Inner(_, _, _, _, _, _) =>
      tau' := SearchInner(W, Q, db, root, node, tau);
  }

  /**
   * doSearch at an inner node: tests the vantage point, then visits the children.
   * The vantage point is accounted for whatever the distances.
   */
  method SearchInner<T>(W: PriorityQueue, Q: Query<T>, ghost db: (T, T) -> real, ghost root: Node, node: Node, tau: Bound)
    returns (tau': Bound)
    requires node.Inner?
    requires W.Valid() && AllSound(W.Inserted, Q, root) && TauOk(W.contents, W.size, tau, Q.radius)
    requires Within(node, root) && IndicesBelow(node, |Q.S|)
    modifies W
    ensures W.Valid() && AllSound(W.Inserted, Q, root) && TauOk(W.contents, W.size, tau', Q.radius)
    ensures OfferedFrom(old(W.Inserted), W.Inserted, multiset(Indices(node)))
    ensures CoversKept(old(W.contents), W.contents, W.size)
    ensures Eligible(node.i, Q) ==> Covers(W.contents, W.size, EntryOf(node.i, Q))
    ensures Triangle(Q, db) && Bounded(node, Q.S, db) ==> CoveredPart(W.contents, W.size, Q, Indices(node))
    decreases node, 2
  {
    assert node.i in Indices(node);
    ChildrenWithin(node, root, |Q.S|);
    var dist := Q.dq(Q.q, Q.S[node.i]);
    ghost var c0, ins0 := W.contents, W.Inserted;
    tau' := Offer(W, Q, root, node.i, dist, tau);
    ghost var c1, ins1 := W.contents, W.Inserted;
    tau' := SearchChildren(W, Q, db, root, node, dist, tau');
    InnerCovered(c0, c1, W.contents, W.size, Q, db, node);
    InnerOffered(ins0, ins1, W.Inserted, node);
  }

  /**
   * The two child visits of doSearch at an inner node whose vantage point is
   * `dist` from the query: closer to the query than `mu`, the left child first,
   * on the lower-bound tests; otherwise the right child first, on the
   * upper-bound tests.
   */
  method SearchChildren<T>(W: PriorityQueue, Q: Query<T>, ghost db: (T, T) -> real, ghost root: Node, node: Node,
                           dist: real, tau: Bound)
    returns (tau': Bound)
    requires node.Inner? && node.i < |Q.S| && dist == Q.dq(Q.q, Q.S[node.i])
    requires W.Valid() && AllSound(W.Inserted, Q, root) && TauOk(W.contents, W.size, tau, Q.radius)
    requires Within(node.L, root) && IndicesBelow(node.L, |Q.S|)
    requires Within(node.R, root) && IndicesBelow(node.R, |Q.S|)
    modifies W
    ensures W.Valid() && AllSound(W.Inserted, Q, root) && TauOk(W.contents, W.size, tau', Q.radius)
    ensures OfferedFrom(old(W.Inserted), W.Inserted, multiset(Indices(node.L)) + multiset(Indices(node.R)))
    ensures CoversKept(old(W.contents), W.contents, W.size)
    ensures Triangle(Q, db) && Bounded(node, Q.S, db) ==>
      CoveredPart(W.contents, W.size, Q, Indices(node.L)) && CoveredPart(W.contents, W.size, Q, Indices(node.R))
    decreases node, 1
  {
    ghost var c0, ins0 := W.contents, W.Inserted;
    if dist < node.mu {
      tau' := Descend(W, Q, db, root, node, node.L, dist, node.m, node.mu, true, tau);
      ghost var c1, ins1 := W.contents, W.Inserted;
      tau' := Descend(W, Q, db, root, node, node.R, dist, node.mu, node.M, true, tau');
      SecondVisit(c0, c1, W.contents, ins0, ins1, W.Inserted, W.size, Q, db, node, node.L, node.R);
    } else {
      tau' := Descend(W, Q, db, root, node, node.R, dist, node.mu, node.M, false, tau);
      ghost var c1, ins1 := W.contents, W.Inserted;
      tau' := Descend(W, Q, db, root, node, node.L, dist, node.m, node.mu, false, tau');
      SecondVisit(c0, c1, W.contents, ins0, ins1, W.Inserted, W.size, Q, db, node, node.R, node.L);
    }
  }

  /**
   * After visiting child `first` (contents `c0` to `c1`) and then `second` (`c1`
   * to `c2`): no covered entry is lost, the first child stays accounted for, and
   * the offers come from both children's indices.
   */
  lemma SecondVisit<T>(c0: seq<Entry>, c1: seq<Entry>, c2: seq<Entry>,
                       ins0: multiset<Entry>, ins1: multiset<Entry>, ins2: multiset<Entry>, size: int,
                       Q: Query<T>, db: (T, T) -> real, node: Node, first: Node, second: Node)
    requires CoversKept(c0, c1, size) && CoversKept(c1, c2, size)
    requires OfferedFrom(ins0, ins1, multiset(Indices(first))) && OfferedFrom(ins1, ins2, multiset(Indices(second)))
    requires Triangle(Q, db) && Bounded(node, Q.S, db) ==> CoveredPart(c1, size, Q, Indices(first))
    ensures CoversKept(c0, c2, size)
    ensures OfferedFrom(ins0, ins2, multiset(Indices(first)) + multiset(Indices(second)))
    ensures OfferedFrom(ins0, ins2, multiset(Indices(second)) + multiset(Indices(first)))
    ensures Triangle(Q, db) && Bounded(node, Q.S, db) ==> CoveredPart(c2, size, Q, Indices(first))
  {
    CoversKeptTrans(c0, c1, c2, size);
    OfferedTrans(ins0, ins1, ins2, multiset(Indices(first)), multiset(Indices(second)));
    if Triangle(Q, db) && Bounded(node, Q.S, db) {
      CoveredPartKept(c1, c2, size, Q, Indices(first));
    }
  }

  /**
   * One child visit of doSearch: `child` lies at build distances in `[lo, hi]`
   * from the vantage point, which is `dist` from the query. It is visited when it
   * is not null and, on the closer side (`lowerTest`), `lo - tau < dist`, on the
   * farther side `dist < hi + tau`. A child left out is accounted for all the same.
   */
  method Descend<T>(W: PriorityQueue, Q: Query<T>, ghost db: (T, T) -> real, ghost root: Node,
                    ghost parent: Node, child: Node, dist: real, lo: real, hi: real, lowerTest: bool, tau: Bound)
    returns (tau': Bound)
    requires parent.Inner? && parent.i < |Q.S| && dist == Q.dq(Q.q, Q.S[parent.i])
    requires || (child == parent.L && lo == parent.m && hi == parent.mu)
             || (child == parent.R && lo == parent.mu && hi == parent.M)
    requires W.Valid() && AllSound(W.Inserted, Q, root) && TauOk(W.contents, W.size, tau, Q.radius)
    requires Within(child, root) && IndicesBelow(child, |Q.S|)
    modifies W
    ensures W.Valid() && AllSound(W.Inserted, Q, root) && TauOk(W.contents, W.size, tau', Q.radius)
    ensures !(child != Null && if lowerTest then AboveLower(lo, tau, dist) else BelowUpper(dist, hi, tau)) ==>
      W.contents == old(W.contents) && W.Inserted == old(W.Inserted) && tau' == tau
    ensures OfferedFrom(old(W.Inserted), W.Inserted, multiset(Indices(child)))
    ensures CoversKept(old(W.contents), W.contents, W.size)
    ensures Triangle(Q, db) && Bounded(parent, Q.S, db) ==> CoveredPart(W.contents, W.size, Q, Indices(child))
    decreases parent, 0
  {
    if child == Null || !(if lowerTest then AboveLower(lo, tau, dist) else BelowUpper(dist, hi, tau)) {
      tau' := tau;
      OfferedOne(W.Inserted, Entry(0, 0.0), multiset(Indices(child)));
      Skipped(W.contents, W.size, Q, db, parent, child, dist, lo, hi, lowerTest, tau);
    } else {
      assert child < parent;
      assert Bounded(parent, Q.S, db) ==> Bounded(child, Q.S, db);
      tau' := DoSearch(W, Q, db, root, child, tau);
    }
  }

  /**
   * A child that Descend skips, because it is null or fails its bound test, holds,
   * under the triangle inequality, no eligible element the queue is missing.
   */
  lemma Skipped<T>(c: seq<Entry>, size: int, Q: Query<T>, db: (T, T) -> real, parent: Node, child: Node,
                   dist: real, lo: real, hi: real, lowerTest: bool, tau: Bound)
    requires parent.Inner? && parent.i < |Q.S| && dist == Q.dq(Q.q, Q.S[parent.i])
    requires || (child == parent.L && lo == parent.m && hi == parent.mu)
             || (child == parent.R && lo == parent.mu && hi == parent.M)
    requires TauOk(c, size, tau, Q.radius)
    requires !(child != Null && if lowerTest then AboveLower(lo, tau, dist) else BelowUpper(dist, hi, tau))
    ensures Triangle(Q, db) && Bounded(parent, Q.S, db) ==> CoveredPart(c, size, Q, Indices(child))
  {
    if child != Null && Triangle(Q, db) && Bounded(parent, Q.S, db) {
      if lowerTest {
        PrunedBelow(c, size, Q, db, parent.i, dist, lo, hi, child, tau);
      } else {
        PrunedAbove(c, size, Q, db, parent.i, dist, lo, hi, child, tau);
      }
    }
  }

  /**
   * Putting an inner node's coverage together: the vantage point is covered after
   * its test (`c0` to `c1`), both children after their visits (`c1` to `c2`), and
   * later steps lose nothing.
   */
  lemma InnerCovered<T>(c0: seq<Entry>, c1: seq<Entry>, c2: seq<Entry>, size: int,
                        Q: Query<T>, db: (T, T) -> real, node: Node)
    requires node.Inner?
    requires CoversKept(c0, c1, size) && CoversKept(c1, c2, size)
    requires Eligible(node.i, Q) ==> Covers(c1, size, EntryOf(node.i, Q))
    requires Triangle(Q, db) && Bounded(node, Q.S, db) ==>
      CoveredPart(c2, size, Q, Indices(node.L)) && CoveredPart(c2, size, Q, Indices(node.R))
    ensures CoversKept(c0, c2, size)
    ensures Eligible(node.i, Q) ==> Covers(c2, size, EntryOf(node.i, Q))
    ensures Triangle(Q, db) && Bounded(node, Q.S, db) ==> CoveredPart(c2, size, Q, Indices(node))
  {
    CoversKeptTrans(c0, c1, c2, size);
    if Triangle(Q, db) && Bounded(node, Q.S, db) {
      forall j | j in Indices(node) && Eligible(j, Q)
        ensures Covers(c2, size, EntryOf(j, Q))
      {
        if j != node.i {
          assert j in Indices(node.L) || j in Indices(node.R);
        }
      }
    }
  }

  /** The vantage point's offer followed by the children's offers come from the node's indices. */
  lemma InnerOffered(ins0: multiset<Entry>, ins1: multiset<Entry>, ins2: multiset<Entry>, node: Node)
    requires node.Inner?
    requires OfferedFrom(ins0, ins1, multiset{node.i})
    requires OfferedFrom(ins1, ins2, multiset(Indices(node.L)) + multiset(Indices(node.R)))
    ensures OfferedFrom(ins0, ins2, multiset(Indices(node)))
  {
    OfferedTrans(ins0, ins1, ins2, multiset{node.i}, multiset(Indices(node.L)) + multiset(Indices(node.R)));
    assert Indices(node) == [node.i] + Indices(node.L) + Indices(node.R);
  }

  /** The bucket loop of doSearch: every element of the bucket is offered in turn. */
  method SearchBucket<T>(W: PriorityQueue, Q: Query<T>, ghost root: Node, items: seq<nat>, tau: Bound)
    returns (tau': Bound)
    requires W.Valid() && AllSound(W.Inserted, Q, root) && TauOk(W.contents, W.size, tau, Q.radius)
    requires forall j :: j in items ==> j in Indices(root) && j < |Q.S|
    modifies W
    ensures W.Valid() && AllSound(W.Inserted, Q, root) && TauOk(W.contents, W.size, tau', Q.radius)
    ensures OfferedFrom(old(W.Inserted), W.Inserted, multiset(items))
    ensures CoversKept(old(W.contents), W.contents, W.size)
    ensures CoveredPart(W.contents, W.size, Q, items)
  {
    tau' := tau;
    ghost var c0, ins0 := W.contents, W.Inserted;
    for k := 0 to |items|
      invariant W.Valid() && AllSound(W.Inserted, Q, root) && TauOk(W.contents, W.size, tau', Q.radius)
      invariant OfferedFrom(ins0, W.Inserted, multiset(items[..k]))
      invariant CoversKept(c0, W.contents, W.size)
      invariant CoveredPart(W.contents, W.size, Q, items[..k])
    {
      var id := items[k];
      assert id in items;
      var dist := Q.dq(Q.q, Q.S[id]);
      ghost var c, ins := W.contents, W.Inserted;
      tau' := Offer(W, Q, root, id, dist, tau');
      BucketStep(c0, c, W.contents, ins0, ins, W.Inserted, W.size, Q, items, k);
    }
    assert items[..|items|] == items;
  }

  /**
   * One more bucket element offered (contents `c` to `c'`): the offers, the kept
   * coverage and the accounted-for prefix all extend to position `k`.
   */
  lemma BucketStep<T>(c0: seq<Entry>, c: seq<Entry>, c': seq<Entry>,
                      ins0: multiset<Entry>, ins: multiset<Entry>, ins': multiset<Entry>, size: int,
                      Q: Query<T>, items: seq<nat>, k: int)
    requires 0 <= k < |items|
    requires OfferedFrom(ins0, ins, multiset(items[..k])) && OfferedFrom(ins, ins', multiset{items[k]})
    requires CoversKept(c0, c, size) && CoversKept(c, c', size)
    requires CoveredPart(c, size, Q, items[..k])
    requires Eligible(items[k], Q) ==> Covers(c', size, EntryOf(items[k], Q))
    ensures OfferedFrom(ins0, ins', multiset(items[..k + 1]))
    ensures CoversKept(c0, c', size)
    ensures CoveredPart(c', size, Q, items[..k + 1])
  {
    OfferedTrans(ins0, ins, ins', multiset(items[..k]), multiset{items[k]});
    CoversKeptTrans(c0, c, c', size);
    CoveredPartKept(c, c', size, Q, items[..k]);
    assert items[..k + 1] == items[..k] + [items[k]];
  }

  /**
   * search: the `limit` nearest eligible elements of the tree, ascending by
   * distance (all of them for `limit == 0`, none for a negative `limit`). Every
   * result is an element of the tree at its true query distance, passing the
   * filter and inside the radius. Under the triangle inequality, for a tree whose
   * bounds hold, every eligible element is a result, or the results are full and
   * none of them is farther.
   */
  method Search<T>(t: VPTree<T>, q: T, limit: int, maxDistance: Option<real>,
                   queryDist: Option<(T, T) -> real>, filter: Option<T -> bool>)
    returns (results: seq<Hit>)
    requires IndicesBelow(t.tree, |t.S|)
    ensures HitsSorted(results)
    ensures limit > 0 ==> |results| <= limit
    ensures limit < 0 ==> results == []
    ensures forall h :: h in results ==>
      && h.i in Indices(t.tree) && h.i < |t.S|
      && h.d == QueryDistance(t, queryDist)(q, t.S[h.i])
      && Passes(filter, t.S[h.i])
      && Below(h.d, Radius(maxDistance))
    ensures var Q := Query(q, t.S, QueryDistance(t, queryDist), filter, Radius(maxDistance));
      Triangle(Q, t.distance) && Bounded(t.tree, t.S, t.distance) ==>
        forall j :: j in Indices(t.tree) && Eligible(j, Q) ==>
          || Hit(j, Q.dq(q, t.S[j])) in results
          || ((limit < 0 || (limit > 0 && |results| == limit)) && forall k :: 0 <= k < |results| ==> results[k].d <= Q.dq(q, t.S[j]))
    ensures (forall j :: multiset(Indices(t.tree))[j] <= 1) ==>
      forall a, b :: 0 <= a < b < |results| ==> results[a].i != results[b].i
  {
    var radius := Radius(maxDistance);
    var tau := radius;
    var W := new PriorityQueue(limit);
    var Q := Query(q, t.S, QueryDistance(t, queryDist), filter, radius);
    tau := DoSearch(W, Q, t.distance, t.tree, t.tree, tau);
    results := W.List();
    SearchResults(W.contents, W.size, W.Inserted, Q, t.tree, t.distance, results);
  }

  /** What the final queue says about the list it hands out. */
  lemma SearchResults<T>(c: seq<Entry>, size: int, inserted: multiset<Entry>, Q: Query<T>, root: Node,
                         db: (T, T) -> real, results: seq<Hit>)
    requires Invariant(c, size, inserted) && AllSound(inserted, Q, root)
    requires |results| == |c| && forall k :: 0 <= k < |c| ==> results[k] == Hit(c[k].data, c[k].priority)
    requires Triangle(Q, db) && Bounded(root, Q.S, db) ==> CoveredPart(c, size, Q, Indices(root))
    requires OfferedFrom(multiset{}, inserted, multiset(Indices(root)))
    ensures HitsSorted(results)
    ensures size > 0 ==> |results| <= size
    ensures size < 0 ==> results == []
    ensures forall h :: h in results ==>
      && h.i in Indices(root) && h.i < |Q.S|
      && h.d == Q.dq(Q.q, Q.S[h.i])
      && Passes(Q.filter, Q.S[h.i])
      && Below(h.d, Q.radius)
    ensures Triangle(Q, db) && Bounded(root, Q.S, db) ==>
      forall j :: j in Indices(root) && Eligible(j, Q) ==>
        || Hit(j, Q.dq(Q.q, Q.S[j])) in results
        || ((size < 0 || (size > 0 && |results| == size)) && forall k :: 0 <= k < |results| ==> results[k].d <= Q.dq(Q.q, Q.S[j]))
    ensures (forall j :: multiset(Indices(root))[j] <= 1) ==>
      forall a, b :: 0 <= a < b < |results| ==> results[a].i != results[b].i
  {
    ResultsSound(c, inserted, Q, root, results);
    if Triangle(Q, db) && Bounded(root, Q.S, db) {
      ResultsComplete(c, size, Q, root, results);
    }
    if forall j :: multiset(Indices(root))[j] <= 1 {
      forall a, b | 0 <= a < b < |results|
        ensures results[a].i != results[b].i
      {
        DistinctData(c, inserted, Q, root, a, b);
      }
    }
  }

  /** Every listed hit comes from a sound queued entry. */
  lemma ResultsSound<T>(c: seq<Entry>, inserted: multiset<Entry>, Q: Query<T>, root: Node, results: seq<Hit>)
    requires multiset(c) <= inserted && AllSound(inserted, Q, root)
    requires |results| == |c| && forall k :: 0 <= k < |c| ==> results[k] == Hit(c[k].data, c[k].priority)
    ensures forall h :: h in results ==>
      && h.i in Indices(root) && h.i < |Q.S|
      && h.d == Q.dq(Q.q, Q.S[h.i])
      && Passes(Q.filter, Q.S[h.i])
      && Below(h.d, Q.radius)
  {
    forall h | h in results
      ensures h.i in Indices(root) && h.i < |Q.S| && h.d == Q.dq(Q.q, Q.S[h.i])
      ensures Passes(Q.filter, Q.S[h.i]) && Below(h.d, Q.radius)
    {
      var k :| 0 <= k < |results| && results[k] == h;
      assert c[k] in multiset(c);
      assert Sound(c[k], Q, root);
    }
  }

  /** A queue accounting for every eligible element lists each one, or is full of entries no farther. */
  lemma ResultsComplete<T>(c: seq<Entry>, size: int, Q: Query<T>, root: Node, results: seq<Hit>)
    requires CoveredPart(c, size, Q, Indices(root))
    requires |results| == |c| && forall k :: 0 <= k < |c| ==> results[k] == Hit(c[k].data, c[k].priority)
    ensures forall j :: j in Indices(root) && Eligible(j, Q) ==>
      || Hit(j, Q.dq(Q.q, Q.S[j])) in results
      || ((size < 0 || (size > 0 && |results| == size)) && forall k :: 0 <= k < |results| ==> results[k].d <= Q.dq(Q.q, Q.S[j]))
  {
    forall j | j in Indices(root) && Eligible(j, Q)
      ensures || Hit(j, Q.dq(Q.q, Q.S[j])) in results
              || ((size < 0 || (size > 0 && |results| == size)) && forall k :: 0 <= k < |results| ==> results[k].d <= Q.dq(Q.q, Q.S[j]))
    {
      var e := EntryOf(j, Q);
      assert Covers(c, size, e);
      if e in c {
        var k :| 0 <= k < |c| && c[k] == e;
        assert results[k] == Hit(j, Q.dq(Q.q, Q.S[j]));
      }
    }
  }

  /**
   * Two queued entries at different positions have different indices when every
   * index was offered at most once: an index fixes a sound entry, and the
   * contents hold no entry more often than it was offered.
   */
  lemma DistinctData<T>(c: seq<Entry>, inserted: multiset<Entry>, Q: Query<T>, root: Node, a: int, b: int)
    requires multiset(c) <= inserted && AllSound(inserted, Q, root)
    requires OfferedFrom(multiset{}, inserted, multiset(Indices(root)))
    requires forall j :: multiset(Indices(root))[j] <= 1
    requires 0 <= a < b < |c|
    ensures c[a].data != c[b].data
  {
    var x := c[a];
    assert c == c[..b] + c[b..];
    assert x in c[..b] && c[b] in c[b..];
    assert multiset(c)[x] == multiset(c[..b])[x] + multiset(c[b..])[x];
    assert x in inserted && inserted[x] <= multiset(Indices(root))[x.data];
    assert c[b] != x;
    assert c[b] in multiset(c);
    assert Sound(x, Q, root) && Sound(c[b], Q, root);
  }
}
