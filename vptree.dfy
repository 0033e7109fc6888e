/**
 * Construction of a vantage-point tree over the elements of `S`. Nodes refer to
 * elements by their index in `S`. An inner node holds a vantage point `i`, the
 * smallest and largest distance `m`, `M` from it to the other elements of its
 * subtree, and the median distance `mu` that splits them into `L` (closer) and
 * `R` (farther). With a bucket size `nb > 0`, sets of at most `nb` elements become
 * buckets.
 */
module VPTrees {
  import opened Wrappers
  import opened Distances
  import opened Selection

  /** A list entry during construction: an index into `S` and its distance to the vantage point. */
  datatype Item = Item(i: nat, dist: real)

  /**
   * A tree node: `null`, a bucket (an array of indices), a vantage point alone
   * (`{i}`, the last element of a set), or a full node `{i, m, M, mu, L, R}`.
   */
  datatype Node =
    | Null
    | Bucket(items: seq<nat>)
    | Point(i: nat)
    | Inner(i: nat, m: real, M: real, mu: real, L: Node, R: Node)

  /** The vp-tree object: the elements, the distance used to build it, and the structure. */
  datatype VPTree<!T> = VPTree(S: seq<T>, distance: (T, T) -> real, tree: Node)

  /** The indices stored in a subtree: vantage point, then left, then right. */
  function Indices(node: Node): (r: seq<nat>) {
    match node
    case Null => []
    case Bucket(items) => items
    case Point(i) => [i]
    case Inner(i, _, _, _, L, R) => [i] + Indices(L) + Indices(R)
  }

  /** The indices of a list of items. */
  function Ids(items: seq<Item>): (r: seq<nat>) {
    seq(|items|, k requires 0 <= k < |items| => items[k].i)
  }

  /** Every index of the subtree addresses an element of a set of `n` elements. */
  ghost predicate IndicesBelow(node: Node, n: nat) {
    forall j :: j in Indices(node) ==> j < n
  }

  /**
   * The distance bounds hold: at an inner node with vantage point `i`,
   * `m <= mu <= M`, every index `j` of `L` has `m <= distance(S[i], S[j]) <= mu`,
   * every index of `R` has `mu <= distance(S[i], S[j]) <= M`, and all indices
   * are within `S`.
   */
  ghost predicate Bounded<T>(node: Node, S: seq<T>, distance: (T, T) -> real) {
    match node
    case Null => true
    case Bucket(items) => forall j :: j in items ==> j < |S|
    case Point(i) => i < |S|
    case Inner(i, m, M, mu, L, R) =>
      && i < |S|
      && m <= mu <= M
      && (forall j :: j in Indices(L) ==> j < |S| && m <= distance(S[i], S[j]) <= mu)
      && (forall j :: j in Indices(R) ==> j < |S| && mu <= distance(S[i], S[j]) <= M)
      && Bounded(L, S, distance)
      && Bounded(R, S, distance)
  }

  /**
   * The shape the construction gives: buckets only with `nb > 0`, non-empty and
   * at most `nb` long; a lone vantage point only without buckets; an inner node
   * only over more than `nb` elements, with a non-empty right part and a left
   * part that has the same size or one element less.
   */
  ghost predicate Shaped(node: Node, nb: int) {
    match node
    case Null => true
    case Bucket(items) => nb > 0 && 0 < |items| <= nb
    case Point(_) => nb <= 0
    case Inner(_, _, _, _, L, R) =>
      && R != Null
      && (nb <= 0 || |Indices(node)| > nb)
      && |Indices(L)| <= |Indices(R)| <= |Indices(L)| + 1
      && Shaped(L, nb)
      && Shaped(R, nb)
  }

  /**
   * selectVPIndex: the vantage point's position in the list. The source draws it
   * at random; here the draw is the caller's `pick`, brought into range.
   */
  function SelectVPIndex(list: seq<nat>, pick: seq<nat> -> nat): (r: nat)
    requires |list| > 0
    ensures r < |list|
    ensures pick(list) < |list| ==> r == pick(list)
  {
    pick(list) % |list|
  }

  /**
   * distanceComparator: orders items by their distance to the vantage point; `a`
   * is not before `b` exactly when `b` is no farther, which is what the median
   * split reads off select's result.
   */
  predicate DistanceComparator(a: Item, b: Item): (r: bool)
    ensures !r <==> b.dist <= a.dist
  {
    a.dist < b.dist
  }

  /** distanceComparator is a strict order, as select demands. */
  lemma ComparatorIsStrict()
    ensures StrictOrder(DistanceComparator)
  {
  }

  /** The indices of a list split in two are the indices of the two parts. */
  lemma IdsSplit(items: seq<Item>, h: int)
    requires 0 <= h <= |items|
    ensures Ids(items) == Ids(items[..h]) + Ids(items[h..])
  {
  }

  /** Taking out the item at `p` takes it out of the multiset of items and its index out of the indices. */
  lemma RemoveAt(t: seq<Item>, p: int)
    requires 0 <= p < |t|
    ensures multiset(t) == multiset(t[..p] + t[p + 1..]) + multiset{t[p]}
    ensures multiset(Ids(t)) == multiset(Ids(t[..p] + t[p + 1..])) + multiset{t[p].i}
  {
    var t' := t[..p] + t[p + 1..];
    assert t == t[..p] + [t[p]] + t[p + 1..];
    IdsSplit(t, p);
    IdsSplit(t[p..], 1);
    assert t[p..][1..] == t[p + 1..];
    assert Ids(t[p..][..1]) == [t[p].i];
    IdsSplit(t', p);
    assert t'[..p] == t[..p] && t'[p..] == t[p + 1..];
  }

  /** Multiset union cancels. */
  lemma Cancel<U>(a: multiset<U>, b: multiset<U>, c: multiset<U>)
    requires a + c == b + c
    ensures a == b
  {
    assert a == a + c - c;
  }

  /** Permuting the items permutes their indices. */
  lemma {:induction false} IdsOfPermutation(s: seq<Item>, t: seq<Item>)
    requires multiset(t) == multiset(s)
    ensures multiset(Ids(t)) == multiset(Ids(s))
    decreases |s|
  {
    if s == [] {
      assert |t| == |multiset(t)| == 0;
    } else {
      var x := s[0];
      assert x in multiset(t);
      var p :| 0 <= p < |t| && t[p] == x;
      var t' := t[..p] + t[p + 1..];
      RemoveAt(t, p);
      RemoveAt(s, 0);
      assert s[..0] + s[1..] == s[1..];
      Cancel(multiset(t'), multiset(s[1..]), multiset{x});
      IdsOfPermutation(s[1..], t');
    }
  }

  /**
   * The distance loop of recurseVPTree: each item gets its distance to the
   * vantage point, `dmin` becomes the smallest one (`Infinity` for no items)
   * and `dmax` the largest one, or 0 if that is larger.
   */
  method MeasureDistances<T>(S: seq<T>, vp: nat, rest: seq<nat>, distance: (T, T) -> real)
    returns (items: array<Item>, dmin: Bound, dmax: real)
    requires vp < |S| && forall k :: 0 <= k < |rest| ==> rest[k] < |S|
    ensures fresh(items)
    ensures items.Length == |rest| && forall k :: 0 <= k < items.Length ==> items[k].i == rest[k]
    ensures Ids(items[..]) == rest
    ensures forall k :: 0 <= k < items.Length ==> items[k].dist == distance(S[vp], S[items[k].i])
    ensures dmin.Infinity? <==> |rest| == 0
    ensures dmin.Finite? ==> forall k :: 0 <= k < items.Length ==> dmin.r <= items[k].dist
    ensures dmin.Finite? ==> exists k :: 0 <= k < items.Length && items[k].dist == dmin.r
    ensures forall k :: 0 <= k < items.Length ==> items[k].dist <= dmax
    ensures dmax == 0.0 || exists k :: 0 <= k < items.Length && items[k].dist == dmax
    ensures 0.0 <= dmax
  {
    items := new Item[|rest|](k requires 0 <= k < |rest| => Item(rest[k], 0.0));
    dmin, dmax := Infinity, 0.0;
    for k := 0 to items.Length
      invariant forall t :: 0 <= t < items.Length ==> items[t].i == rest[t]
      invariant forall t :: 0 <= t < k ==> items[t].dist == distance(S[vp], S[items[t].i])
      invariant dmin.Infinity? <==> k == 0
      invariant dmin.Finite? ==> forall t :: 0 <= t < k ==> dmin.r <= items[t].dist
      invariant dmin.Finite? ==> exists t :: 0 <= t < k && items[t].dist == dmin.r
      invariant forall t :: 0 <= t < k ==> items[t].dist <= dmax
      invariant dmax == 0.0 || exists t :: 0 <= t < k && items[t].dist == dmax
      invariant 0.0 <= dmax
    {
      var d := distance(S[vp], S[items[k].i]);
      items[k] := items[k].(dist := d);
      if Below(d, dmin) {
        dmin := Finite(d);
      }
      if dmax < d {
        dmax := d;
      }
    }
    assert Ids(items[..]) == rest;
  }

  /**
   * After select at `h`, the items before `h` are no farther than the median
   * and the items from `h` on are no closer.
   */
  lemma MedianSplits(s: seq<Item>, h: int)
    requires 0 <= h < |s|
    requires Split(s, 0, h, |s| - 1, DistanceComparator)
    requires Split(s, 0, h + 1, |s| - 1, DistanceComparator)
    ensures forall k :: 0 <= k < h ==> s[k].dist <= s[h].dist
    ensures forall k :: h <= k < |s| ==> s[h].dist <= s[k].dist
  {
    forall k | 0 <= k < h
      ensures s[k].dist <= s[h].dist
    {
      assert !DistanceComparator(s[h], s[k]);
    }
    forall k | h < k < |s|
      ensures s[h].dist <= s[k].dist
    {
      assert !DistanceComparator(s[k], s[h]);
    }
  }

  /** What each measured item satisfies: a valid index, its distance, within the bounds. */
  ghost predicate Measured<T>(x: Item, S: seq<T>, vp: nat, distance: (T, T) -> real, m: real, M: real)
    requires vp < |S|
  {
    x.i < |S| && x.dist == distance(S[vp], S[x.i]) && m <= x.dist <= M
  }

  /** The indices of a part of the measured items are elements at distances within `[lo, hi]`. */
  lemma PartBounds<T>(part: seq<Item>, S: seq<T>, vp: nat, distance: (T, T) -> real, m: real, M: real,
                      lo: real, hi: real)
    requires vp < |S|
    requires forall k :: 0 <= k < |part| ==> Measured(part[k], S, vp, distance, m, M)
    requires forall k :: 0 <= k < |part| ==> lo <= part[k].dist <= hi
    ensures forall j :: j in Ids(part) ==> j < |S| && lo <= distance(S[vp], S[j]) <= hi
  {
    forall j | j in Ids(part)
      ensures j < |S| && lo <= distance(S[vp], S[j]) <= hi
    {
      var k :| 0 <= k < |part| && Ids(part)[k] == j;
      assert Measured(part[k], S, vp, distance, m, M);
    }
  }

  /**
   * After the distance loop and select: every item is measured and within
   * `[m, M]`, the two halves hold the indices of `rest` between them, those
   * before `half` are no farther than the median and the others no closer.
   */
  lemma SelectedParts<T>(S: seq<T>, vp: nat, distance: (T, T) -> real, m: real, M: real,
                         rest: seq<nat>, measured: seq<Item>, sorted: seq<Item>, half: int)
    requires vp < |S|
    requires Ids(measured) == rest && 0 < |rest| && half == |rest| / 2
    requires forall k :: 0 <= k < |measured| ==> measured[k].i < |S|
    requires forall k :: 0 <= k < |measured| ==> measured[k].dist == distance(S[vp], S[measured[k].i])
    requires forall k :: 0 <= k < |measured| ==> m <= measured[k].dist <= M
    requires multiset(sorted) == multiset(measured)
    requires Split(sorted, 0, half, |sorted| - 1, DistanceComparator)
    requires Split(sorted, 0, half + 1, |sorted| - 1, DistanceComparator)
    ensures |sorted| == |rest|
    ensures forall k :: 0 <= k < |sorted| ==> Measured(sorted[k], S, vp, distance, m, M)
    ensures forall k :: 0 <= k < half ==> sorted[k].dist <= sorted[half].dist
    ensures forall k :: half <= k < |sorted| ==> sorted[half].dist <= sorted[k].dist
    ensures multiset(Ids(sorted[..half])) + multiset(Ids(sorted[half..])) == multiset(rest)
    ensures forall k :: 0 <= k < |Ids(sorted[..half])| ==> Ids(sorted[..half])[k] < |S|
    ensures forall k :: 0 <= k < |Ids(sorted[half..])| ==> Ids(sorted[half..])[k] < |S|
  {
    assert |sorted| == |multiset(sorted)| == |multiset(measured)| == |measured|;
    assert forall k :: 0 <= k < |measured| ==> Measured(measured[k], S, vp, distance, m, M);
    PermutationKeeps(measured, sorted, x => Measured(x, S, vp, distance, m, M));
    MedianSplits(sorted, half);
    IdsOfPermutation(measured, sorted);
    IdsSplit(sorted, half);
  }

  /**
   * The distance loop, select and splice of recurseVPTree: measures the distance
   * from the vantage point `vp` to each index of `rest`, and splits `rest` at the
   * median distance `mu` into `left` (the `|rest| / 2` closer ones, no farther
   * than `mu`) and `right` (the others, no closer than `mu`, starting with the
   * median element). `m` is the smallest distance and `M` the largest, or 0
   * when that is larger.
   */
  method SplitAroundMedian<T>(S: seq<T>, vp: nat, rest: seq<nat>, distance: (T, T) -> real)
    returns (m: real, M: real, mu: real, left: seq<nat>, right: seq<nat>)
    requires vp < |S| && 0 < |rest| && forall k :: 0 <= k < |rest| ==> rest[k] < |S|
    ensures |left| == |rest| / 2 && |right| == |rest| - |rest| / 2
    ensures multiset(left) + multiset(right) == multiset(rest)
    ensures forall j :: j in left ==> j < |S| && m <= distance(S[vp], S[j]) <= mu
    ensures forall j :: j in right ==> j < |S| && mu <= distance(S[vp], S[j]) <= M
    ensures forall k :: 0 <= k < |left| ==> left[k] < |S|
    ensures forall k :: 0 <= k < |right| ==> right[k] < |S|
    ensures mu == distance(S[vp], S[right[0]])
    ensures m <= mu <= M && 0.0 <= M
    ensures forall j :: j in rest ==> m <= distance(S[vp], S[j]) <= M
    ensures exists j :: j in rest && distance(S[vp], S[j]) == m
    ensures M == 0.0 || exists j :: j in rest && distance(S[vp], S[j]) == M
  {
    var items, dmin, dmax := MeasureDistances(S, vp, rest, distance);
    ghost var measured := items[..];
    ghost var kmin :| 0 <= kmin < |rest| && items[kmin].dist == dmin.r;
    assert rest[kmin] in rest && distance(S[vp], S[rest[kmin]]) == dmin.r;
    if dmax != 0.0 {
      ghost var kmax :| 0 <= kmax < |rest| && items[kmax].dist == dmax;
      assert rest[kmax] in rest && distance(S[vp], S[rest[kmax]]) == dmax;
    }
    forall j | j in rest
      ensures dmin.r <= distance(S[vp], S[j]) <= dmax
    {
      var k :| 0 <= k < |rest| && rest[k] == j;
      assert items[k].i == j;
    }
    var half := |rest| / 2;
    ComparatorIsStrict();
    var median := Select(items, half, DistanceComparator);
    m, M, mu := dmin.r, dmax, median.value.dist;
    ghost var sorted := items[..];
    SelectedParts(S, vp, distance, m, M, rest, measured, sorted, half);
    assert sorted[..half] == items[..half] && sorted[half..] == items[half..];
    left, right := Ids(items[..half]), Ids(items[half..]);
    PartBounds(sorted[..half], S, vp, distance, m, M, m, mu);
    PartBounds(sorted[half..], S, vp, distance, m, M, mu, M);
    assert Measured(sorted[half], S, vp, distance, m, M);
    assert forall k :: 0 <= k < |left| ==> left[k] in left;
    assert forall k :: 0 <= k < |right| ==> right[k] in right;
    assert right[0] in right;
  }

  /** The distance bounds of an inner node whose subtrees hold `left` and `right`. */
  lemma InnerBounded<T>(S: seq<T>, distance: (T, T) -> real, vp: nat, m: real, M: real, mu: real,
                        left: seq<nat>, right: seq<nat>, L: Node, R: Node)
    requires vp < |S| && m <= mu <= M
    requires forall j :: j in left ==> j < |S| && m <= distance(S[vp], S[j]) <= mu
    requires forall j :: j in right ==> j < |S| && mu <= distance(S[vp], S[j]) <= M
    requires multiset(Indices(L)) == multiset(left) && Bounded(L, S, distance)
    requires multiset(Indices(R)) == multiset(right) && Bounded(R, S, distance)
    ensures Bounded(Inner(vp, m, M, mu, L, R), S, distance)
  {
    forall j | j in Indices(L)
      ensures j in left
    {
      assert j in multiset(Indices(L));
    }
    forall j | j in Indices(R)
      ensures j in right
    {
      assert j in multiset(Indices(R));
    }
  }

  /** The shape of an inner node over `n` indices whose halves have `n / 2` and the rest. */
  lemma InnerShaped(nb: int, n: int, vp: nat, m: real, M: real, mu: real, L: Node, R: Node)
    requires !(nb > 0 && n + 1 <= nb) && 0 < n
    requires |Indices(L)| == n / 2 && |Indices(R)| == n - n / 2
    requires Shaped(L, nb) && Shaped(R, nb)
    ensures Shaped(Inner(vp, m, M, mu, L, R), nb)
  {
    assert |Indices(Inner(vp, m, M, mu, L, R))| == n + 1;
  }

  /** An inner node holds its vantage point and the indices of both subtrees. */
  lemma InnerCount(list: seq<nat>, vp: nat, rest: seq<nat>, m: real, M: real, mu: real, L: Node, R: Node)
    requires multiset(list) == multiset{vp} + multiset(rest)
    requires multiset(Indices(L)) + multiset(Indices(R)) == multiset(rest)
    ensures multiset(Indices(Inner(vp, m, M, mu, L, R))) == multiset(list)
    ensures |Indices(Inner(vp, m, M, mu, L, R))| == |list|
  {
    var node := Inner(vp, m, M, mu, L, R);
    assert Indices(node) == [vp] + Indices(L) + Indices(R);
    assert multiset(Indices(node)) == multiset{vp} + multiset(Indices(L)) + multiset(Indices(R));
    assert |Indices(node)| == |multiset(Indices(node))| == |multiset(list)| == |list|;
  }

  /**
   * recurseVPTree: builds the subtree over the indices in `list`. Every index ends
   * up in the subtree exactly as often as it is in `list`, the distance bounds
   * hold at every node, and the subtree has the constructed shape: empty exactly
   * for an empty list, a bucket holding `list` exactly when buckets are on and the
   * list fits in one.
   */
  method RecurseVPTree<T>(S: seq<T>, list: seq<nat>, distance: (T, T) -> real, nb: int, pick: seq<nat> -> nat)
    returns (node: Node)
    requires forall k :: 0 <= k < |list| ==> list[k] < |S|
    ensures multiset(Indices(node)) == multiset(list)
    ensures Bounded(node, S, distance)
    ensures Shaped(node, nb)
    ensures node == Null <==> |list| == 0
    ensures node.Bucket? <==> nb > 0 && 0 < |list| <= nb
    ensures node.Bucket? ==> node.items == list
    decreases |list|
  {
    if |list| == 0 {
      return Null;
    }
    if nb > 0 && |list| <= nb {
      return Bucket(list);
    }
    var v := SelectVPIndex(list, pick);
    var vp := list[v];
    var rest := list[..v] + list[v + 1..];
    assert multiset(list) == multiset{vp} + multiset(rest) by {
      assert list == list[..v] + [vp] + list[v + 1..];
    }
    if |rest| == 0 {
      return Point(vp);
    }
    var m, M, mu, left, right := SplitAroundMedian(S, vp, rest, distance);
    var L := RecurseVPTree(S, left, distance, nb, pick);
    var R := RecurseVPTree(S, right, distance, nb, pick);
    InnerBounded(S, distance, vp, m, M, mu, left, right, L, R);
    InnerCount(list, vp, rest, m, M, mu, L, R);
    assert |Indices(L)| == |multiset(Indices(L))| == |left|;
    assert |Indices(R)| == |multiset(Indices(R))| == |right|;
    InnerShaped(nb, |rest|, vp, m, M, mu, L, R);
    node := Inner(vp, m, M, mu, L, R);
  }


  /** Counting the indices `0 .. |list| - 1`: each once, nothing else. */
  lemma {:induction false} CountRange(list: seq<nat>)
    requires forall k :: 0 <= k < |list| ==> list[k] == k
    ensures forall j: nat :: multiset(list)[j] == if j < |list| then 1 else 0
  {
    if list != [] {
      var n := |list| - 1;
      CountRange(list[..n]);
      assert list == list[..n] + [n];
    }
  }

  /**
   * buildVPTree over an array `S`: the tree holds every index of `S` exactly once,
   * with the distance bounds and the constructed shape.
   */
  method Build<T>(S: seq<T>, distance: (T, T) -> real, nb: int, pick: seq<nat> -> nat) returns (t: VPTree<T>)
    ensures t.S == S && t.distance == distance
    ensures forall j: nat :: multiset(Indices(t.tree))[j] == if j < |S| then 1 else 0
    ensures IndicesBelow(t.tree, |S|)
    ensures Bounded(t.tree, S, distance)
    ensures Shaped(t.tree, nb)
    ensures t.tree == Null <==> |S| == 0
  {
    var list: seq<nat> := [];
    for i := 0 to |S|
      invariant |list| == i
      invariant forall k :: 0 <= k < i ==> list[k] == k
    {
      list := list + [i];
    }
    CountRange(list);
    var tree := RecurseVPTree(S, list, distance, nb, pick);
    t := VPTree(S, distance, tree);
    forall j | j in Indices(t.tree)
      ensures j < |S|
    {
      assert multiset(Indices(t.tree))[j] > 0;
    }
  }

  /** The largest length a JavaScript array can have, `2^32 - 1`. */
  const MaxArrayLength: int := 0xFFFF_FFFF

  /** The RangeError that `new Array(n)` throws for a count that is no array length. */
  datatype BuildError = InvalidArrayLength(n: int)

  /**
   * buildVPTree given a count `n`: the elements are the integers `0 .. n - 1`,
   * and the tree over them is built as for an array. A negative count, or one
   * past the largest array length, makes `new Array` throw.
   */
  method BuildFromCount(n: int, distance: (nat, nat) -> real, nb: int, pick: seq<nat> -> nat)
    returns (r: Result<VPTree<nat>, BuildError>)
    ensures r.Failure? <==> n < 0 || MaxArrayLength < n
    ensures r.Failure? ==> r.error == InvalidArrayLength(n)
    ensures r.Success? ==>
      && |r.value.S| == n && (forall k :: 0 <= k < n ==> r.value.S[k] == k)
      && r.value.distance == distance
      && (forall j: nat :: multiset(Indices(r.value.tree))[j] == if j < n then 1 else 0)
      && IndicesBelow(r.value.tree, n)
      && Bounded(r.value.tree, r.value.S, distance)
      && Shaped(r.value.tree, nb)
  {
    if n < 0 || MaxArrayLength < n {
      return Failure(InvalidArrayLength(n));
    }
    var S: seq<nat> := [];
    for i := 0 to n
      invariant |S| == i
      invariant forall k :: 0 <= k < i ==> S[k] == k
    {
      S := S + [i];
    }
    var t := Build(S, distance, nb, pick);
    r := Success(t);
  }

  /** VPTreeFactory.load: a vp-tree object over given elements, distance and structure. */
  function Load<T>(S: seq<T>, distance: (T, T) -> real, tree: Node): (r: VPTree<T>)
    ensures r.S == S && r.distance == distance && r.tree == tree
  {
    VPTree(S, distance, tree)
  }
}
