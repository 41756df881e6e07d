/**
 * QuickSort and QuickSelect of src/algorithms/sorting.h, on an array with
 * index ranges in place of iterators. `comp` is a strict weak order.
 */
module QuickSorts {
  import opened SortSpec

  /**
   * The partition step of QuickSort (sorting.h:37-49): the last element of
   * [lo, hi) is the pivot; elements comp-less than it are swapped to the
   * front, then the pivot is swapped to the boundary `p`.
   */
  method Partition<T>(a: array<T>, lo: nat, hi: nat, comp: (T, T) -> bool) returns (p: nat)
    requires lo < hi <= a.Length
    modifies a
    ensures lo <= p < hi
    ensures a[p] == old(a[hi - 1])
    ensures forall i :: lo <= i < p ==> comp(a[i], a[p])
    ensures forall i :: p < i < hi ==> !comp(a[i], a[p])
    ensures multiset(a[..]) == old(multiset(a[..]))
    ensures forall i :: 0 <= i < a.Length && (i < lo || hi <= i) ==> a[i] == old(a[i])
  {
    var pivot := hi - 1;
    p := lo;
    var it := lo;
    while it != pivot
      invariant lo <= p <= it <= pivot
      invariant a[pivot] == old(a[pivot])
      invariant forall i :: lo <= i < p ==> comp(a[i], a[pivot])
      invariant forall i :: p <= i < it ==> !comp(a[i], a[pivot])
      invariant multiset(a[..]) == old(multiset(a[..]))
      invariant forall i :: 0 <= i < a.Length && (i < lo || pivot <= i) ==> a[i] == old(a[i])
    {
      if comp(a[it], a[pivot]) {
        Swap(a, p, it);
        p := p + 1;
      }
      it := it + 1;
    }
    Swap(a, p, pivot);
  }

  /**
   * quicksort_impl (sorting.h:34-59): partition [lo, hi), then sort the
   * non-empty parts on either side of the pivot.
   */
  method QuickSortImpl<T(!new)>(a: array<T>, lo: nat, hi: nat, comp: (T, T) -> bool)
    requires StrictWeakOrder(comp)
    requires lo <= hi <= a.Length
    modifies a
    ensures Sorted(a[lo..hi], comp)
    ensures multiset(a[..]) == old(multiset(a[..]))
    ensures forall i :: 0 <= i < a.Length && (i < lo || hi <= i) ==> a[i] == old(a[i])
    decreases hi - lo
  {
    if lo < hi {
      var p := Partition(a, lo, hi, comp);
      ghost var x := a[p];
      ghost var parted := a[..];
      if p != lo {
        QuickSortImpl(a, lo, p, comp);
      }
      ghost var leftDone := a[..];
      if p + 1 != hi {
        QuickSortImpl(a, p + 1, hi, comp);
      }
      ghost var rightDone := a[..];
      SliceMultiset(parted, leftDone, lo, p);
      SliceMultiset(leftDone, rightDone, p + 1, hi);
      JoinParts(parted, leftDone, rightDone, lo, p, hi, comp);
    }
  }

  /** The two sorted sides and the pivot between them make a sorted range. */
  lemma JoinParts<T(!new)>(parted: seq<T>, leftDone: seq<T>, rightDone: seq<T>, lo: nat, p: nat, hi: nat, comp: (T, T) -> bool)
    requires StrictWeakOrder(comp)
    requires lo <= p < hi <= |parted| == |leftDone| == |rightDone|
    requires forall i :: lo <= i < p ==> comp(parted[i], parted[p])
    requires forall i :: p < i < hi ==> !comp(parted[i], parted[p])
    requires multiset(parted[lo..p]) == multiset(leftDone[lo..p])
    requires multiset(leftDone[p + 1..hi]) == multiset(rightDone[p + 1..hi])
    requires forall i :: 0 <= i < |parted| && (i < lo || p <= i) ==> leftDone[i] == parted[i]
    requires forall i :: 0 <= i < |parted| && (i <= p || hi <= i) ==> rightDone[i] == leftDone[i]
    requires Sorted(leftDone[lo..p], comp) && Sorted(rightDone[p + 1..hi], comp)
    ensures Sorted(rightDone[lo..hi], comp)
  {
    var x := parted[p];
    var left, right := rightDone[lo..p], rightDone[p + 1..hi];
    assert left == leftDone[lo..p];
    assert leftDone[p + 1..hi] == parted[p + 1..hi];
    forall y | y in left
      ensures comp(y, x)
    {
      assert y in multiset(parted[lo..p]);
      var i :| 0 <= i < p - lo && parted[lo..p][i] == y;
      assert parted[lo + i] == y;
    }
    forall y | y in right
      ensures !comp(y, x)
    {
      assert y in multiset(parted[p + 1..hi]);
      var i :| 0 <= i < hi - p - 1 && parted[p + 1..hi][i] == y;
      assert parted[p + 1 + i] == y;
    }
    SortedAround(left, x, right, comp);
    assert rightDone[lo..hi] == left + [x] + right;
  }

  /**
   * QuickSort over a range (sorting.h:26-62): an empty range is left alone,
   * otherwise the range ends sorted and a permutation of what it held.
   */
  method QuickSortRange<T(!new)>(a: array<T>, first: nat, last: nat, comp: (T, T) -> bool)
    requires StrictWeakOrder(comp)
    requires first <= last <= a.Length
    modifies a
    ensures Sorted(a[first..last], comp)
    ensures multiset(a[..]) == old(multiset(a[..]))
    ensures forall i :: 0 <= i < a.Length && (i < first || last <= i) ==> a[i] == old(a[i])
  {
    if first >= last {
      return;
    }
    QuickSortImpl(a, first, last, comp);
  }

  /** QuickSort of a whole vector (sorting.h:70-75). */
  method QuickSort<T(!new)>(a: array<T>, comp: (T, T) -> bool)
    requires StrictWeakOrder(comp)
    modifies a
    ensures Sorted(a[..], comp)
    ensures multiset(a[..]) == old(multiset(a[..]))
  {
    if a.Length != 0 {
      QuickSortRange(a, 0, a.Length, comp);
      assert a[..] == a[0..a.Length];
    }
  }

  /* --------------------------------------------------------- QuickSelect */

  /**
   * The partition helper of QuickSelectIterator (sorting.h:285-298), on the
   * inclusive range [low, high]: the pivot is work[high], `i` starts at
   * low - 1 and grows before each swap, and the pivot lands at i + 1.
   */
  method SelectPartition<T>(work: array<T>, low: nat, high: nat, comp: (T, T) -> bool) returns (pivotIndex: nat)
    requires low <= high < work.Length
    modifies work
    ensures low <= pivotIndex <= high
    ensures forall k :: low <= k < pivotIndex ==> comp(work[k], work[pivotIndex])
    ensures forall k :: pivotIndex < k <= high ==> !comp(work[k], work[pivotIndex])
    ensures multiset(work[..]) == old(multiset(work[..]))
    ensures forall k :: 0 <= k < work.Length && (k < low || high < k) ==> work[k] == old(work[k])
  {
    var pivot := work[high];
    var i: int := low - 1;
    for j := low to high
      invariant low - 1 <= i < j
      invariant work[high] == pivot
      invariant forall k :: low <= k <= i ==> comp(work[k], pivot)
      invariant forall k :: i < k < j ==> !comp(work[k], pivot)
      invariant multiset(work[..]) == old(multiset(work[..]))
      invariant forall k :: 0 <= k < work.Length && (k < low || high < k) ==> work[k] == old(work[k])
    {
      if comp(work[j], pivot) {
        i := i + 1;
        Swap(work, i, j);
      }
    }
    Swap(work, i + 1, high);
    pivotIndex := i + 1;
  }

  /**
   * quickselect_impl (sorting.h:300-314): partition [low, high] and recurse
   * into the side holding `targetK`, until the pivot lands on it. The index
   * returned is always `targetK`, and on return the element there has no
   * greater element before it and no smaller one after it.
   */
  method SelectImpl<T(!new)>(work: array<T>, low: nat, high: nat, targetK: nat, comp: (T, T) -> bool) returns (index: nat)
    requires StrictWeakOrder(comp)
    requires low <= targetK <= high < work.Length
    requires Separated(work[..], low, high + 1, comp)
    modifies work
    ensures index == targetK
    ensures forall i :: 0 <= i < targetK ==> !comp(work[targetK], work[i])
    ensures forall i :: targetK < i < work.Length ==> !comp(work[i], work[targetK])
    ensures multiset(work[..]) == old(multiset(work[..]))
    decreases high - low
  {
    if low == high {
      return low;
    }
    ghost var before := work[..];
    var pivotIndex := SelectPartition(work, low, high, comp);
    SliceMultiset(before, work[..], low, high + 1);
    PartitionSeparates(before, work[..], low, high, pivotIndex, comp);
    if targetK == pivotIndex {
      index := pivotIndex;
    } else if targetK < pivotIndex {
      index := SelectImpl(work, low, pivotIndex - 1, targetK, comp);
    } else {
      index := SelectImpl(work, pivotIndex + 1, high, targetK, comp);
    }
  }

  /**
   * After a partition of a separated range [low, high] around `p`, both
   * sides are separated ranges, and the pivot is in its sorted place.
   */
  lemma PartitionSeparates<T(!new)>(s: seq<T>, t: seq<T>, low: nat, high: nat, p: nat, comp: (T, T) -> bool)
    requires StrictWeakOrder(comp)
    requires low <= p <= high < |s| == |t|
    requires Separated(s, low, high + 1, comp)
    requires multiset(s[low..high + 1]) == multiset(t[low..high + 1])
    requires forall i :: 0 <= i < |s| && (i < low || high < i) ==> s[i] == t[i]
    requires forall k :: low <= k < p ==> comp(t[k], t[p])
    requires forall k :: p < k <= high ==> !comp(t[k], t[p])
    ensures Separated(t, low, p, comp) && Separated(t, p + 1, high + 1, comp)
    ensures forall i :: 0 <= i < p ==> !comp(t[p], t[i])
    ensures forall i :: p < i < |t| ==> !comp(t[i], t[p])
  {
    SeparatedPermute(s, t, low, high + 1, comp);
  }

  /**
   * The index search on a copy of the input, as QuickSelectIterator runs it
   * (sorting.h:282, 316): the index found is `k`, and the copy then holds
   * the k-th smallest element of the input at that index.
   */
  method SelectOnCopy<T(!new)>(data: seq<T>, k: nat, comp: (T, T) -> bool) returns (work: array<T>, resultIndex: nat)
    requires StrictWeakOrder(comp)
    requires k < |data|
    ensures fresh(work) && work.Length == |data|
    ensures resultIndex == k
    ensures IsKthSmallest(data, k, work[k], comp)
  {
    work := new T[|data|](i requires 0 <= i < |data| => data[i]);
    assert work[..] == data;
    resultIndex := SelectImpl(work, 0, |data| - 1, k, comp);
    PartitionedIsKth(work[..], data, k, comp);
  }

  /**
   * QuickSelectIterator (sorting.h:274-320) requires k < size (line 279).
   * The index is computed on the copy, but the iterator returned is advanced
   * from the start of the untouched input: its offset is `k` itself.
   */
  method QuickSelectIterator<T(!new)>(data: seq<T>, k: nat, comp: (T, T) -> bool) returns (offset: nat)
    requires StrictWeakOrder(comp)
    requires k < |data|
    ensures offset == k
  {
    var work, resultIndex := SelectOnCopy(data, k, comp);
    offset := resultIndex;
  }

  /**
   * QuickSelect (sorting.h:332-337, and the vector overload at 347-351),
   * as written: the element of the input at position k.
   */
  method QuickSelect<T(!new)>(data: seq<T>, k: nat, comp: (T, T) -> bool) returns (x: T)
    requires StrictWeakOrder(comp)
    requires k < |data|
    ensures x == data[k]
  {
    var offset := QuickSelectIterator(data, k, comp);
    x := data[offset];
  }

  /**
   * The value QuickSelect returns need not be the k-th smallest: for [2, 1]
   * and k = 0 it returns 2, while the smallest element is 1.
   */
  lemma QuickSelectReturnsPosition()
    ensures StrictWeakOrder(IntLess)
    ensures [2, 1][0] == 2 && !IsKthSmallest([2, 1], 0, 2, IntLess)
  {
    var s := [2, 1];
    var below := Below(IntLess, 2);
    assert below(1) && !below(2);
    assert s[..1] == [2] && s[..1][..0] == [];
    assert Count([2], below) == 0;
    assert Count(s, below) == 1;
  }

  /**
   * QuickSelect as documented (sorting.h:322-331): the element at index k of
   * the partitioned copy, which is the k-th smallest of the input.
   */
  method QuickSelectCorrected<T(!new)>(data: seq<T>, k: nat, comp: (T, T) -> bool) returns (x: T)
    requires StrictWeakOrder(comp)
    requires k < |data|
    ensures IsKthSmallest(data, k, x, comp)
  {
    var work, resultIndex := SelectOnCopy(data, k, comp);
    x := work[resultIndex];
  }

  /** std::swap of two elements of an array. */
  method Swap<T>(a: array<T>, i: nat, j: nat)
    requires i < a.Length && j < a.Length
    modifies a
    ensures a[i] == old(a[j]) && a[j] == old(a[i])
    ensures forall k :: 0 <= k < a.Length && k != i && k != j ==> a[k] == old(a[k])
    ensures multiset(a[..]) == old(multiset(a[..]))
  {
    a[i], a[j] := a[j], a[i];
  }
}
