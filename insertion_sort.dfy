/**
 * InsertionSort and IsSorted of src/algorithms/sorting.h, on an array with
 * index ranges in place of iterators. `comp` is a strict weak order.
 */
module InsertionSorts {
  import opened SortSpec

  /**
   * InsertionSort over a range (sorting.h:231-249): each element in turn is
   * taken out, the elements before it that it is comp-less than move up one
   * place, and it goes into the gap. The scan index is signed and stops
   * at first - 1. The source's iterator is decremented to one before
   * `first`, which for begin() is undefined behaviour; the model gives the
   * evidently intended stop instead.
   */
  method InsertionSortRange<T(!new)>(a: array<T>, first: nat, last: nat, comp: (T, T) -> bool)
    requires StrictWeakOrder(comp)
    requires first <= last <= a.Length
    modifies a
    ensures Sorted(a[first..last], comp)
    ensures multiset(a[..]) == old(multiset(a[..]))
    ensures forall i :: 0 <= i < a.Length && (i < first || last <= i) ==> a[i] == old(a[i])
  {
    if first == last {
      return;
    }
    for it := first + 1 to last
      invariant Sorted(a[first..it], comp)
      invariant multiset(a[..]) == old(multiset(a[..]))
      invariant forall i :: 0 <= i < a.Length && (i < first || last <= i) ==> a[i] == old(a[i])
    {
      ghost var pre := a[..];
      ghost var p := InsertOne(a, first, it, comp);
      InsertStep(pre, first, p, it, last, comp);
    }
  }

  /** One pass of the outer loop keeps its three invariants. */
  lemma InsertStep<T(!new)>(pre: seq<T>, first: nat, p: nat, it: nat, last: nat, comp: (T, T) -> bool)
    requires StrictWeakOrder(comp)
    requires first <= p <= it < last <= |pre|
    requires Sorted(pre[first..it], comp)
    requires p > first ==> !comp(pre[it], pre[p - 1])
    requires forall k :: p <= k < it ==> comp(pre[it], pre[k])
    ensures Sorted(Inserted(pre, p, it)[first..it + 1], comp)
    ensures multiset(Inserted(pre, p, it)) == multiset(pre)
    ensures forall k :: 0 <= k < |pre| && (k < first || last <= k) ==> Inserted(pre, p, it)[k] == pre[k]
  {
    InsertedSorted(pre, first, p, it, comp);
    InsertedPermutes(pre, p, it);
  }

  /** InsertionSort of a whole vector (sorting.h:257-262). */
  method InsertionSort<T(!new)>(a: array<T>, comp: (T, T) -> bool)
    requires StrictWeakOrder(comp)
    modifies a
    ensures Sorted(a[..], comp)
    ensures multiset(a[..]) == old(multiset(a[..]))
  {
    if a.Length != 0 {
      InsertionSortRange(a, 0, a.Length, comp);
      assert a[..] == a[0..a.Length];
    }
  }

  /**
   * One pass of the outer loop (sorting.h:238-247): the element at `it`
   * goes down past every element of [first, it) that it is comp-less than,
   * scanning from the top, and lands at `p`.
   */
  method InsertOne<T>(a: array<T>, first: nat, it: nat, comp: (T, T) -> bool) returns (ghost p: nat)
    requires first <= it < a.Length
    modifies a
    ensures first <= p <= it
    ensures a[..] == Inserted(old(a[..]), p, it)
    ensures p > first ==> !comp(old(a[it]), old(a[p - 1]))
    ensures forall k :: p <= k < it ==> comp(old(a[it]), old(a[k]))
  {
    ghost var pre := a[..];
    var key := a[it];
    var j: int := it - 1;
    while j >= first && comp(key, a[j])
      invariant first - 1 <= j <= it - 1
      invariant forall k :: 0 <= k < a.Length && (k <= j || it < k) ==> a[k] == pre[k]
      invariant forall k :: j + 2 <= k <= it ==> a[k] == pre[k - 1]
      invariant forall k :: j + 1 <= k < it ==> comp(key, pre[k])
    {
      a[j + 1] := a[j];
      j := j - 1;
    }
    a[j + 1] := key;
    p := j + 1;
    ghost var r := Inserted(pre, p, it);
    forall k | 0 <= k < a.Length
      ensures a[k] == r[k]
    {
    }
  }

  /**
   * `s` with its element at `it` moved down to position `p` and the
   * elements of [p, it) moved up one place.
   */
  function Inserted<T>(s: seq<T>, p: nat, it: nat): (r: seq<T>)
    requires p <= it < |s|
    ensures |r| == |s|
    ensures r[p] == s[it]
    ensures forall k :: 0 <= k < |s| && (k < p || it < k) ==> r[k] == s[k]
    ensures forall k :: p < k <= it ==> r[k] == s[k - 1]
  {
    s[..p] + [s[it]] + s[p..it] + s[it + 1..]
  }

  /** Moving one element keeps the multiset. */
  lemma InsertedPermutes<T>(s: seq<T>, p: nat, it: nat)
    requires p <= it < |s|
    ensures multiset(Inserted(s, p, it)) == multiset(s)
  {
    assert s == s[..p] + s[p..it] + [s[it]] + s[it + 1..];
  }

  /**
   * Inserting the element at `it` into the sorted range [first, it), just
   * above the last element it is not comp-less than, gives a sorted range
   * [first, it + 1).
   */
  lemma InsertedSorted<T(!new)>(s: seq<T>, first: nat, p: nat, it: nat, comp: (T, T) -> bool)
    requires StrictWeakOrder(comp)
    requires first <= p <= it < |s|
    requires Sorted(s[first..it], comp)
    requires p > first ==> !comp(s[it], s[p - 1])
    requires forall k :: p <= k < it ==> comp(s[it], s[k])
    ensures Sorted(Inserted(s, p, it)[first..it + 1], comp)
  {
    var r := Inserted(s, p, it);
    var key := s[it];
    forall i, j | first <= i < j <= it
      ensures !comp(r[j], r[i])
    {
      if j < p {
        assert s[first..it][i - first] == s[i] && s[first..it][j - first] == s[j];
      } else if i > p {
        assert s[first..it][i - 1 - first] == s[i - 1] && s[first..it][j - 1 - first] == s[j - 1];
      } else if i < p && j == p {
        assert s[first..it][i - first] == s[i] && s[first..it][p - 1 - first] == s[p - 1];
        assert i == p - 1 || !comp(s[p - 1], s[i]);
      } else if i < p {
        assert s[first..it][i - first] == s[i] && s[first..it][j - 1 - first] == s[j - 1];
      }
    }
    var front := r[first..it + 1];
    forall i, j | 0 <= i < j < |front|
      ensures !comp(front[j], front[i])
    {
      assert front[i] == r[first + i] && front[j] == r[first + j];
    }
  }

  /* ------------------------------------------------------------ IsSorted */

  /**
   * IsSorted over a range (sorting.h:362-380): walks adjacent pairs and
   * answers false at the first element comp-less than the one before it.
   * An empty or one-element range is sorted; for a strict weak order the
   * answer is whether the whole range is sorted.
   */
  method IsSortedRange<T(!new)>(s: seq<T>, first: nat, last: nat, comp: (T, T) -> bool) returns (b: bool)
    requires first <= last <= |s|
    ensures b <==> AdjacentSorted(s[first..last], comp)
    ensures StrictWeakOrder(comp) ==> (b <==> Sorted(s[first..last], comp))
    ensures last - first <= 1 ==> b
  {
    var range := s[first..last];
    if StrictWeakOrder(comp) {
      AdjacentSortedIsSorted(range, comp);
    }
    if first == last {
      return true;
    }
    var prev, next := first, first + 1;
    while next != last
      invariant first < next <= last && prev == next - 1
      invariant forall i :: 0 < i < next - first ==> !comp(range[i], range[i - 1])
    {
      if comp(s[next], s[prev]) {
        assert range[next - first] == s[next] && range[next - first - 1] == s[prev];
        return false;
      }
      prev, next := prev + 1, next + 1;
    }
    return true;
  }

  /** IsSorted of a whole vector (sorting.h:389-392). */
  method IsSorted<T(!new)>(s: seq<T>, comp: (T, T) -> bool) returns (b: bool)
    ensures b <==> AdjacentSorted(s, comp)
    ensures StrictWeakOrder(comp) ==> (b <==> Sorted(s, comp))
  {
    b := IsSortedRange(s, 0, |s|, comp);
    assert s[0..|s|] == s;
  }
}
