/**
 * The selection primitive of the vp-tree: an in-place partition around a pivot,
 * a median-of-three pivot choice, and an iterative quickselect (`nth_element`)
 * with its 0-based wrapper `select`. Elements are compared with a caller-supplied
 * comparator `comp`, where `comp(a, b)` means "a is less than b".
 */
module Selection {
  import opened Wrappers

  /** The two errors the selection functions throw. */
  datatype SelectError =
    | NthOutOfRange(nth: int)  // nth_element: nth outside [1, right-left+1]
    | KOutOfRange(k: int)      // select: k outside [0, list.length-1]

  /** `comp` is never true both ways round. */
  ghost predicate Asymmetric<T(!new)>(comp: (T, T) -> bool) {
    forall x, y :: comp(x, y) ==> !comp(y, x)
  }

  /** `comp` is a strict "less than": asymmetric and transitive. */
  ghost predicate StrictOrder<T(!new)>(comp: (T, T) -> bool) {
    Asymmetric(comp) &&
    forall x, y, z :: comp(x, y) && comp(y, z) ==> comp(x, z)
  }

  /**
   * Within `s[lo..hi+1]`, no element at or after `cut` is comp-less than an element
   * before `cut`: the range is split at `cut` into a "small" and a "large" part.
   */
  ghost predicate Split<T>(s: seq<T>, lo: int, cut: int, hi: int, comp: (T, T) -> bool)
    requires 0 <= lo && hi < |s|
  {
    forall i, j :: lo <= i < cut <= j <= hi ==> !comp(s[j], s[i])
  }

  /** `s[k]` is where it would be if `s[lo..hi+1]` were sorted by `comp`. */
  ghost predicate SelectedAt<T>(s: seq<T>, lo: int, k: int, hi: int, comp: (T, T) -> bool)
    requires 0 <= lo <= k <= hi < |s|
  {
    (forall i :: lo <= i < k ==> !comp(s[k], s[i])) &&
    (forall j :: k < j <= hi ==> !comp(s[j], s[k]))
  }

  /** `m` is not comp-less than both of `u`, `v`, nor comp-greater than both. */
  ghost predicate Middle<T>(comp: (T, T) -> bool, m: T, u: T, v: T) {
    !(comp(m, u) && comp(m, v)) && !(comp(u, m) && comp(v, m))
  }

  /** A split at `k` and at `k + 1` puts `s[k]` in its sorted place. */
  lemma SplitSelects<T>(s: seq<T>, lo: int, k: int, hi: int, comp: (T, T) -> bool)
    requires 0 <= lo <= k <= hi < |s|
    requires Split(s, lo, k, hi, comp) && Split(s, lo, k + 1, hi, comp)
    ensures SelectedAt(s, lo, k, hi, comp)
  {
  }

  /** A value that is in a permuted slice was in the original slice. */
  lemma PermutedMember<T>(s: seq<T>, t: seq<T>, lo: int, hi: int, y: int) returns (y': int)
    requires 0 <= lo <= hi <= |s| && hi <= |t|
    requires multiset(t[lo..hi]) == multiset(s[lo..hi])
    requires lo <= y < hi
    ensures lo <= y' < hi && s[y'] == t[y]
  {
    assert t[y] == t[lo..hi][y - lo];
    assert t[y] in multiset(s[lo..hi]);
    var w :| 0 <= w < hi - lo && s[lo..hi][w] == t[y];
    y' := lo + w;
  }

  /** Exchanges `list[i]` and `list[j]`, as the three-assignment swaps in partition do. */
  method Swap<T>(list: array<T>, i: int, j: int)
    requires 0 <= i < list.Length && 0 <= j < list.Length
    modifies list
    ensures list[i] == old(list[j]) && list[j] == old(list[i])
    ensures forall k :: 0 <= k < list.Length && k != i && k != j ==> list[k] == old(list[k])
    ensures multiset(list[..]) == multiset(old(list[..]))
  {
    list[i], list[j] := list[j], list[i];
  }

  /** A permutation that leaves everything outside `[lo, hi]` in place permutes `[lo, hi]`. */
  lemma SliceOfPermutation<T>(b: seq<T>, s: seq<T>, lo: int, hi: int)
    requires |b| == |s| && 0 <= lo <= hi + 1 <= |s|
    requires multiset(s) == multiset(b)
    requires forall k :: 0 <= k < |s| && !(lo <= k <= hi) ==> s[k] == b[k]
    ensures multiset(s[lo..hi + 1]) == multiset(b[lo..hi + 1])
  {
    assert s == s[..lo] + s[lo..hi + 1] + s[hi + 1..];
    assert b == b[..lo] + b[lo..hi + 1] + b[hi + 1..];
    assert s[..lo] == b[..lo];
    assert s[hi + 1..] == b[hi + 1..];
    var A, C := multiset(s[..lo]), multiset(s[hi + 1..]);
    assert multiset(s) == A + multiset(s[lo..hi + 1]) + C;
    assert multiset(b) == A + multiset(b[lo..hi + 1]) + C;
    assert multiset(s[lo..hi + 1]) == multiset(s) - A - C;
    assert multiset(b[lo..hi + 1]) == multiset(b) - A - C;
  }

  /**
   * partition: moves the pivot to the end, sweeps `[left, right)` moving every
   * element comp-less than the pivot into a growing left block, then puts the
   * pivot right after that block and returns its position.
   */
  method Partition<T>(list: array<T>, left: int, right: int, pivotIndex: int, comp: (T, T) -> bool)
    returns (storeIndex: int)
    requires 0 <= left <= pivotIndex <= right < list.Length
    modifies list
    ensures left <= storeIndex <= right
    ensures list[storeIndex] == old(list[pivotIndex])
    ensures forall k :: left <= k < storeIndex ==> comp(list[k], list[storeIndex])
    ensures forall k :: storeIndex < k <= right ==> !comp(list[k], list[storeIndex])
    ensures forall k :: 0 <= k < list.Length && !(left <= k <= right) ==> list[k] == old(list[k])
    ensures multiset(list[left..right + 1]) == multiset(old(list[left..right + 1]))
  {
    var pivotValue := list[pivotIndex];
    Swap(list, pivotIndex, right);
    storeIndex := left;
    for i := left to right
      invariant left <= storeIndex <= i
      invariant list[right] == pivotValue
      invariant forall k :: left <= k < storeIndex ==> comp(list[k], pivotValue)
      invariant forall k :: storeIndex <= k < i ==> !comp(list[k], pivotValue)
      invariant forall k :: 0 <= k < list.Length && !(left <= k <= right) ==> list[k] == old(list[k])
      invariant multiset(list[..]) == multiset(old(list[..]))
    {
      if comp(list[i], pivotValue) {
        Swap(list, storeIndex, i);
        storeIndex := storeIndex + 1;
      }
    }
    Swap(list, right, storeIndex);
    SliceOfPermutation(old(list[..]), list[..], left, right);
  }

  /**
   * medianOf3: the one of the indices `a`, `b`, `c` whose element lies between the
   * other two under `comp`.
   */
  function MedianOf3<T(!new)>(list: array<T>, a: int, b: int, c: int, comp: (T, T) -> bool): (r: int)
    requires 0 <= a < list.Length && 0 <= b < list.Length && 0 <= c < list.Length
    reads list
    ensures r == a || r == b || r == c
    ensures Asymmetric(comp) ==>
      (r == a ==> Middle(comp, list[a], list[b], list[c])) &&
      (r == b ==> Middle(comp, list[b], list[a], list[c])) &&
      (r == c ==> Middle(comp, list[c], list[a], list[b]))
  {
    var A, B, C := list[a], list[b], list[c];
    if comp(A, B) then
      (if comp(B, C) then b else if comp(A, C) then c else a)
    else
      (if comp(A, C) then a else if comp(B, C) then c else b)
  }

  /**
   * What one partition step of nth_element keeps and adds. `b` is the array before
   * partitioning `[lo, hi]` at `p`, `s` after; the splits at `lo` and `hi + 1` held in
   * `b` and now hold in `s`, together with splits on both sides of the pivot.
   */
  lemma {:induction false} PartitionStep<T(!new)>(b: seq<T>, s: seq<T>, left: int, lo: int, p: int, hi: int, right: int,
                                                 comp: (T, T) -> bool)
    requires StrictOrder(comp)
    requires |b| == |s| && 0 <= left <= lo <= p <= hi <= right < |s|
    requires Split(b, left, lo, right, comp) && Split(b, left, hi + 1, right, comp)
    requires forall k :: 0 <= k < |s| && !(lo <= k <= hi) ==> s[k] == b[k]
    requires multiset(s[lo..hi + 1]) == multiset(b[lo..hi + 1])
    requires forall k :: lo <= k < p ==> comp(s[k], s[p])
    requires forall k :: p < k <= hi ==> !comp(s[k], s[p])
    ensures Split(s, left, lo, right, comp) && Split(s, left, hi + 1, right, comp)
    ensures Split(s, left, p, right, comp) && Split(s, left, p + 1, right, comp)
  {
    // Whatever now sits in [lo, hi] sat somewhere in [lo, hi] before.
    assert Split(s, left, lo, right, comp) by {
      forall i, j | left <= i < lo <= j <= right
        ensures !comp(s[j], s[i])
      {
        if j <= hi {
          var j' := PermutedMember(b, s, lo, hi + 1, j);
        }
      }
    }
    assert Split(s, left, hi + 1, right, comp) by {
      forall i, j | left <= i < hi + 1 <= j <= right
        ensures !comp(s[j], s[i])
      {
        if lo <= i {
          var i' := PermutedMember(b, s, lo, hi + 1, i);
        }
      }
    }
    forall i, j | left <= i < p <= j <= right
      ensures !comp(s[j], s[i])
    {
    }
    forall i, j | left <= i < p + 1 <= j <= right
      ensures !comp(s[j], s[i])
    {
    }
  }

  /**
   * nth_element: quickselect over `list[left..right]` for the element of 1-based
   * rank `nth`, narrowing `[left, right]` after each partition.
   */
  method NthElement<T(!new)>(list: array<T>, left: int, nth: int, right: int, comp: (T, T) -> bool)
    returns (r: Result<T, SelectError>)
    requires 0 <= left && right < list.Length
    requires StrictOrder(comp)
    modifies list
    ensures !(1 <= nth <= right - left + 1) ==>
      r == Failure(NthOutOfRange(nth)) && list[..] == old(list[..])
    ensures 1 <= nth <= right - left + 1 ==>
      && r == Success(list[left + nth - 1])
      && SelectedAt(list[..], left, left + nth - 1, right, comp)
      && Split(list[..], left, left + nth - 1, right, comp)
      && Split(list[..], left, left + nth, right, comp)
      && multiset(list[left..right + 1]) == multiset(old(list[left..right + 1]))
      && forall k :: 0 <= k < list.Length && !(left <= k <= right) ==> list[k] == old(list[k])
  {
    if nth <= 0 || nth > right - left + 1 {
      return Failure(NthOutOfRange(nth));
    }
    ghost var target := left + nth - 1;
    var lo, hi, n := left, right, nth;
    while true
      invariant left <= lo && hi <= right && 1 <= n <= hi - lo + 1 && lo + n - 1 == target
      invariant Split(list[..], left, lo, right, comp) && Split(list[..], left, hi + 1, right, comp)
      invariant multiset(list[left..right + 1]) == multiset(old(list[left..right + 1]))
      invariant forall k :: 0 <= k < list.Length && !(left <= k <= right) ==> list[k] == old(list[k])
      decreases hi - lo
    {
      var pivotIndex := MedianOf3(list, lo, hi, (lo + hi) / 2, comp);
      ghost var before := list[..];
      var pivotNewIndex := Partition(list, lo, hi, pivotIndex, comp);
      PartitionStep(before, list[..], left, lo, pivotNewIndex, hi, right, comp);
      RangeKeepsMultiset(before, list[..], left, lo, hi, right);
      var pivotDist := pivotNewIndex - lo + 1;
      if pivotDist == n {
        SplitSelects(list[..], left, pivotNewIndex, right, comp);
        return Success(list[pivotNewIndex]);
      } else if n < pivotDist {
        hi := pivotNewIndex - 1;
      } else {
        n := n - pivotDist;
        lo := pivotNewIndex + 1;
      }
    }
  }

  /** Permuting `[lo, hi]` inside `[left, right]` permutes `[left, right]`. */
  lemma RangeKeepsMultiset<T>(b: seq<T>, s: seq<T>, left: int, lo: int, hi: int, right: int)
    requires |b| == |s| && 0 <= left <= lo <= hi <= right < |s|
    requires forall k :: 0 <= k < |s| && !(lo <= k <= hi) ==> s[k] == b[k]
    requires multiset(s[lo..hi + 1]) == multiset(b[lo..hi + 1])
    ensures multiset(s[left..right + 1]) == multiset(b[left..right + 1])
  {
    assert s[left..right + 1] == s[left..lo] + s[lo..hi + 1] + s[hi + 1..right + 1];
    assert b[left..right + 1] == b[left..lo] + b[lo..hi + 1] + b[hi + 1..right + 1];
    assert s[left..lo] == b[left..lo];
    assert s[hi + 1..right + 1] == b[hi + 1..right + 1];
  }

  /** select: the element of 0-based rank `k` in the whole list, via nth_element. */
  method Select<T(!new)>(list: array<T>, k: int, comp: (T, T) -> bool) returns (r: Result<T, SelectError>)
    requires StrictOrder(comp)
    modifies list
    ensures !(0 <= k < list.Length) ==> r == Failure(KOutOfRange(k)) && list[..] == old(list[..])
    ensures 0 <= k < list.Length ==>
      && r == Success(list[k])
      && SelectedAt(list[..], 0, k, list.Length - 1, comp)
      && Split(list[..], 0, k, list.Length - 1, comp)
      && Split(list[..], 0, k + 1, list.Length - 1, comp)
      && multiset(list[..]) == multiset(old(list[..]))
  {
    if k < 0 || k >= list.Length {
      return Failure(KOutOfRange(k));
    }
    r := NthElement(list, 0, k + 1, list.Length - 1, comp);
    assert list[0..list.Length] == list[..];
    assert old(list[0..list.Length]) == old(list[..]);
  }

  /** A property of every element survives a permutation. */
  lemma PermutationKeeps<T>(s: seq<T>, t: seq<T>, P: T -> bool)
    requires multiset(t) == multiset(s)
    requires forall k :: 0 <= k < |s| ==> P(s[k])
    ensures forall k :: 0 <= k < |t| ==> P(t[k])
  {
    forall k | 0 <= k < |t|
      ensures P(t[k])
    {
      assert |t| == |multiset(t)| == |multiset(s)| == |s|;
      assert t[0..|t|] == t && s[0..|t|] == s;
      var k' := PermutedMember(s, t, 0, |t|, k);
    }
  }
}
