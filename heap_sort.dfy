/**
 * HeapSort of src/algorithms/sorting.h, on an array with index ranges in
 * place of iterators. `comp` is a strict weak order, and the heap is a
 * max-heap under it: no parent is comp-less than its child.
 *
 * The source's `heapify` lambda calls itself through a variable whose type
 * is still being deduced, so it does not compile as written; the sift-down
 * it evidently intends is modelled.
 */
module HeapSorts {
  import opened SortSpec

  /** The parent of heap position k > 0. */
  function Parent(k: nat): (p: nat)
    requires k > 0
    ensures 2 * p + 1 == k || 2 * p + 2 == k
  {
    (k - 1) / 2
  }

  /** Every edge of the heap [0, n) whose parent is at `lo` or beyond is in order. */
  ghost predicate HeapFrom<T>(s: seq<T>, n: nat, lo: nat, comp: (T, T) -> bool)
    requires n <= |s|
  {
    forall k :: 0 < k < n && lo <= Parent(k) ==> !comp(s[Parent(k)], s[k])
  }

  /** As HeapFrom, except for the edges below position i. */
  ghost predicate HeapExcept<T>(s: seq<T>, n: nat, lo: nat, i: nat, comp: (T, T) -> bool)
    requires n <= |s|
  {
    forall k :: 0 < k < n && lo <= Parent(k) && Parent(k) != i ==> !comp(s[Parent(k)], s[k])
  }

  /** The parent of i, when it is at `lo` or beyond, is not below i's children. */
  ghost predicate GrandparentOk<T>(s: seq<T>, n: nat, lo: nat, i: nat, comp: (T, T) -> bool)
    requires i < n <= |s|
  {
    0 < i && lo <= Parent(i) ==> forall k :: 0 < k < n && Parent(k) == i ==> !comp(s[Parent(i)], s[k])
  }

  /**
   * One sift-down step: swapping position i with its child c, which is not
   * below i nor below its sibling, moves the one disorder down to c.
   */
  lemma SiftStep<T(!new)>(s: seq<T>, n: nat, lo: nat, i: nat, c: nat, comp: (T, T) -> bool)
    requires StrictWeakOrder(comp)
    requires lo <= i < c < n <= |s| && Parent(c) == i
    requires HeapExcept(s, n, lo, i, comp) && GrandparentOk(s, n, lo, i, comp)
    requires !comp(s[c], s[i])
    requires forall d :: 0 < d < n && Parent(d) == i ==> !comp(s[c], s[d])
    ensures HeapExcept(s[i := s[c]][c := s[i]], n, lo, c, comp)
    ensures GrandparentOk(s[i := s[c]][c := s[i]], n, lo, c, comp)
  {
    var t := s[i := s[c]][c := s[i]];
    forall k | 0 < k < n && lo <= Parent(k) && Parent(k) != c
      ensures !comp(t[Parent(k)], t[k])
    {
      if k == i {
        assert t[Parent(k)] == s[Parent(i)];
      } else if k == c {
      } else if Parent(k) == i {
      } else {
        assert t[Parent(k)] == s[Parent(k)] && t[k] == s[k];
      }
    }
    forall k | 0 < k < n && Parent(k) == c
      ensures !comp(t[i], t[k])
    {
      assert t[k] == s[k];
    }
  }

  /** When i is not below its children, the disorder at i is gone. */
  lemma SiftDone<T>(s: seq<T>, n: nat, lo: nat, i: nat, comp: (T, T) -> bool)
    requires i < n <= |s|
    requires HeapExcept(s, n, lo, i, comp)
    requires forall d :: 0 < d < n && Parent(d) == i ==> !comp(s[i], s[d])
    ensures HeapFrom(s, n, lo, comp)
  {
  }

  /** No element of a heap is above its root. */
  lemma {:induction false} RootIsMax<T(!new)>(s: seq<T>, n: nat, k: nat, comp: (T, T) -> bool)
    requires StrictWeakOrder(comp)
    requires k < n <= |s| && HeapFrom(s, n, 0, comp)
    ensures !comp(s[0], s[k])
    decreases k
  {
    if k > 0 {
      RootIsMax(s, n, Parent(k), comp);
    }
  }

  /**
   * HeapSort over a range (sorting.h:163-208): ranges of at most one element
   * are left alone; otherwise a max-heap is built bottom-up, and the root is
   * repeatedly swapped to the end of the shrinking heap, which is then
   * repaired. The range ends sorted and a permutation of what it held.
   */
  method HeapSortRange<T(!new)>(a: array<T>, first: nat, last: nat, comp: (T, T) -> bool)
    requires StrictWeakOrder(comp)
    requires first <= last <= a.Length
    modifies a
    ensures Sorted(a[first..last], comp)
    ensures multiset(a[first..last]) == old(multiset(a[first..last]))
    ensures forall k :: 0 <= k < a.Length && (k < first || last <= k) ==> a[k] == old(a[k])
  {
    var size := last - first;
    if size <= 1 {
      assert a[first..last] == [] || a[first..last] == [a[first]];
      return;
    }
    BuildHeap(a, first, size, comp);
    var i: int := size - 1;
    assert a[first..last][i + 1..] == [];
    while i > 0
      invariant 0 <= i < size
      invariant HeapFrom(a[first..last], i + 1, 0, comp)
      invariant Sorted(a[first..last][i + 1..], comp)
      invariant Separated(a[first..last], 0, i + 1, comp)
      invariant multiset(a[first..last]) == old(multiset(a[first..last]))
      invariant forall k :: 0 <= k < a.Length && (k < first || last <= k) ==> a[k] == old(a[k])
    {
      ExtractMax(a, first, last, i, comp);
      i := i - 1;
    }
    SortedWithRoot(a[first..last], comp);
  }

  /** A sorted tail after a first element not above any of it is a sorted whole. */
  lemma SortedWithRoot<T>(h: seq<T>, comp: (T, T) -> bool)
    requires 1 <= |h|
    requires Sorted(h[1..], comp) && Separated(h, 0, 1, comp)
    ensures Sorted(h, comp)
  {
    assert h == [h[0]] + h[1..];
    forall y | y in h[1..]
      ensures !comp(y, h[0])
    {
      var j :| 0 <= j < |h| - 1 && h[1..][j] == y;
      assert h[j + 1] == y;
    }
    SortedCons(h[0], h[1..], comp);
  }

  /** HeapSort of a whole vector (sorting.h:216-221). */
  method HeapSort<T(!new)>(a: array<T>, comp: (T, T) -> bool)
    requires StrictWeakOrder(comp)
    modifies a
    ensures Sorted(a[..], comp)
    ensures multiset(a[..]) == old(multiset(a[..]))
  {
    if a.Length != 0 {
      assert a[..] == a[0..a.Length];
      HeapSortRange(a, 0, a.Length, comp);
      assert a[..] == a[0..a.Length];
    }
  }

  /** The build loop (sorting.h:196-198): sift down from size/2 - 1 to 0. */
  method BuildHeap<T(!new)>(a: array<T>, first: nat, size: nat, comp: (T, T) -> bool)
    requires StrictWeakOrder(comp)
    requires first + size <= a.Length
    modifies a
    ensures HeapFrom(a[first..first + size], size, 0, comp)
    ensures multiset(a[first..first + size]) == old(multiset(a[first..first + size]))
    ensures forall k :: 0 <= k < a.Length && (k < first || first + size <= k) ==> a[k] == old(a[k])
  {
    var i: int := size / 2 - 1;
    while i >= 0
      invariant -1 <= i <= size / 2 - 1
      invariant HeapFrom(a[first..first + size], size, i + 1, comp)
      invariant multiset(a[first..first + size]) == old(multiset(a[first..first + size]))
      invariant forall k :: 0 <= k < a.Length && (k < first || first + size <= k) ==> a[k] == old(a[k])
    {
      Heapify(a, first, size, i, i, comp);
      i := i - 1;
    }
  }

  /**
   * One pass of the extract loop (sorting.h:201-207): swap the root to
   * position i, then repair the heap [0, i).
   */
  method ExtractMax<T(!new)>(a: array<T>, first: nat, last: nat, i: nat, comp: (T, T) -> bool)
    requires StrictWeakOrder(comp)
    requires first <= last <= a.Length && 0 < i < last - first
    requires HeapFrom(a[first..last], i + 1, 0, comp)
    requires Sorted(a[first..last][i + 1..], comp)
    requires Separated(a[first..last], 0, i + 1, comp)
    modifies a
    ensures HeapFrom(a[first..last], i, 0, comp)
    ensures Sorted(a[first..last][i..], comp)
    ensures Separated(a[first..last], 0, i, comp)
    ensures multiset(a[first..last]) == old(multiset(a[first..last]))
    ensures forall k :: 0 <= k < a.Length && (k < first || last <= k) ==> a[k] == old(a[k])
  {
    SwapRoot(a, first, last, i, comp);
    Repair(a, first, last, i, comp);
  }

  /** The swap of the extract loop (sorting.h:203): the root goes to position i. */
  method SwapRoot<T(!new)>(a: array<T>, first: nat, last: nat, i: nat, comp: (T, T) -> bool)
    requires StrictWeakOrder(comp)
    requires first <= last <= a.Length && 0 < i < last - first
    requires HeapFrom(a[first..last], i + 1, 0, comp)
    requires Sorted(a[first..last][i + 1..], comp)
    requires Separated(a[first..last], 0, i + 1, comp)
    modifies a
    ensures HeapExcept(a[first..first + i], i, 0, 0, comp)
    ensures Sorted(a[first..last][i..], comp)
    ensures Separated(a[first..last], 0, i, comp)
    ensures multiset(a[first..last]) == old(multiset(a[first..last]))
    ensures forall k :: 0 <= k < a.Length && (k < first || last <= k) ==> a[k] == old(a[k])
  {
    ghost var h := a[first..last];
    ghost var whole := a[..];
    Swap(a, first, first + i);
    ghost var h1 := a[first..last];
    assert h1 == h[0 := h[i]][i := h[0]];
    SliceMultiset(whole, a[..], first, last);
    ExtractStep(h, i, comp);
    HeapExceptPrefix(h1, a[first..first + i], i, 0, 0, comp);
  }

  /** The repair of the extract loop (sorting.h:206): sift down the new root of [0, i). */
  method Repair<T(!new)>(a: array<T>, first: nat, last: nat, i: nat, comp: (T, T) -> bool)
    requires StrictWeakOrder(comp)
    requires first <= last <= a.Length && 0 < i < last - first
    requires HeapExcept(a[first..first + i], i, 0, 0, comp)
    requires Sorted(a[first..last][i..], comp)
    requires Separated(a[first..last], 0, i, comp)
    modifies a
    ensures HeapFrom(a[first..last], i, 0, comp)
    ensures Sorted(a[first..last][i..], comp)
    ensures Separated(a[first..last], 0, i, comp)
    ensures multiset(a[first..last]) == old(multiset(a[first..last]))
    ensures forall k :: 0 <= k < a.Length && (k < first || last <= k) ==> a[k] == old(a[k])
  {
    ghost var h1 := a[first..last];
    ghost var pre := a[first..first + i];
    Heapify(a, first, i, 0, 0, comp);
    ghost var h2 := a[first..last];
    assert h2[..i] == a[first..first + i] && h1[..i] == pre;
    assert h2[i..] == h1[i..];
    HeapFromPrefix(a[first..first + i], h2, i, 0, comp);
    AfterRepair(h1, h2, i, comp);
  }

  /** Repairing the heap [0, i) keeps the tail and the separation. */
  lemma AfterRepair<T>(h1: seq<T>, h2: seq<T>, i: nat, comp: (T, T) -> bool)
    requires i <= |h1| == |h2|
    requires h2[i..] == h1[i..] && multiset(h2[..i]) == multiset(h1[..i])
    requires Separated(h1, 0, i, comp)
    ensures Sorted(h2[i..], comp) == Sorted(h1[i..], comp)
    ensures Separated(h2, 0, i, comp)
    ensures multiset(h2) == multiset(h1)
  {
    assert h1 == h1[..i] + h1[i..] && h2 == h2[..i] + h2[i..];
    assert h2[0..i] == h2[..i] && h1[0..i] == h1[..i];
    forall k | 0 <= k < |h1| && (k < 0 || i <= k)
      ensures h1[k] == h2[k]
    {
      assert h1[k] == h1[i..][k - i];
    }
    SeparatedPermute(h1, h2, 0, i, comp);
  }

  lemma HeapFromPrefix<T>(s: seq<T>, t: seq<T>, n: nat, lo: nat, comp: (T, T) -> bool)
    requires n <= |s| && n <= |t|
    requires forall k :: 0 <= k < n ==> s[k] == t[k]
    requires HeapFrom(s, n, lo, comp)
    ensures HeapFrom(t, n, lo, comp)
  {
  }

  lemma HeapExceptPrefix<T>(s: seq<T>, t: seq<T>, n: nat, lo: nat, i: nat, comp: (T, T) -> bool)
    requires n <= |s| && n <= |t|
    requires forall k :: 0 <= k < n ==> s[k] == t[k]
    requires HeapExcept(s, n, lo, i, comp)
    ensures HeapExcept(t, n, lo, i, comp)
  {
  }

  /**
   * Swapping the root of the heap [0, i] with position i extends the sorted
   * tail by the heap's maximum and leaves only the root out of order.
   */
  lemma ExtractStep<T(!new)>(h: seq<T>, i: nat, comp: (T, T) -> bool)
    requires StrictWeakOrder(comp)
    requires 0 < i < |h|
    requires HeapFrom(h, i + 1, 0, comp)
    requires Sorted(h[i + 1..], comp)
    requires Separated(h, 0, i + 1, comp)
    ensures Sorted(h[0 := h[i]][i := h[0]][i..], comp)
    ensures Separated(h[0 := h[i]][i := h[0]], 0, i, comp)
    ensures HeapExcept(h[0 := h[i]][i := h[0]], i, 0, 0, comp)
  {
    var h1 := h[0 := h[i]][i := h[0]];
    forall k | 0 <= k <= i
      ensures !comp(h[0], h[k])
    {
      RootIsMax(h, i + 1, k, comp);
    }
    assert h1[i..] == [h[0]] + h[i + 1..];
    forall y | y in h[i + 1..]
      ensures !comp(y, h[0])
    {
      var j :| 0 <= j < |h| - i - 1 && h[i + 1..][j] == y;
      assert h[i + 1 + j] == y;
    }
    SortedCons(h[0], h[i + 1..], comp);
    forall x, y | 0 <= x < i <= y < |h1|
      ensures !comp(h1[y], h1[x])
    {
      if y > i {
        if x == 0 {
          assert !comp(h[y], h[i]);
        } else {
          assert !comp(h[y], h[x]);
        }
      }
    }
  }

  /**
   * heapify (sorting.h:171-193) on the heap [begin, begin + n): find the
   * largest of position i and its children, and if it is a child, swap it
   * up and sift down from there. Only the disorder at i may be present, and
   * afterwards every edge from `lo` on is in order.
   */
  method Heapify<T(!new)>(a: array<T>, begin: nat, n: nat, i: nat, ghost lo: nat, comp: (T, T) -> bool)
    requires StrictWeakOrder(comp)
    requires begin + n <= a.Length && lo <= i < n
    requires HeapExcept(a[begin..begin + n], n, lo, i, comp)
    requires GrandparentOk(a[begin..begin + n], n, lo, i, comp)
    modifies a
    ensures HeapFrom(a[begin..begin + n], n, lo, comp)
    ensures multiset(a[begin..begin + n]) == old(multiset(a[begin..begin + n]))
    ensures forall k :: 0 <= k < a.Length && (k < begin || begin + n <= k) ==> a[k] == old(a[k])
    decreases n - i
  {
    ghost var s := a[begin..begin + n];
    var largest := Largest(a, begin, n, i, comp);
    if largest != i {
      ghost var before := a[..];
      Swap(a, begin + i, begin + largest);
      SwappedSlice(before, a[..], begin, n, i, largest);
      SiftStep(s, n, lo, i, largest, comp);
      Heapify(a, begin, n, largest, lo, comp);
    } else {
      SiftDone(s, n, lo, i, comp);
    }
  }

  /**
   * The choice in heapify (sorting.h:172-184): position i, or a child of it
   * that the current choice is comp-less than, left child first. The choice
   * is not below i nor below any child of i.
   */
  method Largest<T(!new)>(a: array<T>, begin: nat, n: nat, i: nat, comp: (T, T) -> bool) returns (largest: nat)
    requires StrictWeakOrder(comp)
    requires begin + n <= a.Length && i < n
    ensures largest == i || (i < largest < n && Parent(largest) == i)
    ensures !comp(a[begin..begin + n][largest], a[begin..begin + n][i])
    ensures forall d :: 0 < d < n && Parent(d) == i ==> !comp(a[begin..begin + n][largest], a[begin..begin + n][d])
  {
    largest := i;
    var left := 2 * i + 1;
    var right := 2 * i + 2;
    if left < n && comp(a[begin + largest], a[begin + left]) {
      largest := left;
    }
    if right < n && comp(a[begin + largest], a[begin + right]) {
      largest := right;
    }
    assert forall d :: 0 < d < n && Parent(d) == i ==> d == left || d == right;
  }

  /** std::swap of two elements of an array. */
  method Swap<T>(a: array<T>, i: nat, j: nat)
    requires i < a.Length && j < a.Length
    modifies a
    ensures a[..] == old(a[..])[i := old(a[j])][j := old(a[i])]
    ensures multiset(a[..]) == old(multiset(a[..]))
  {
    a[i], a[j] := a[j], a[i];
  }

  /** A swap inside [begin, begin + n) is a swap of that slice, and keeps its multiset. */
  lemma SwappedSlice<T>(before: seq<T>, after: seq<T>, begin: nat, n: nat, i: nat, c: nat)
    requires i < n && c < n && begin + n <= |before|
    requires after == before[begin + i := before[begin + c]][begin + c := before[begin + i]]
    ensures after[begin..begin + n] == before[begin..begin + n][i := before[begin + c]][c := before[begin + i]]
    ensures multiset(after[begin..begin + n]) == multiset(before[begin..begin + n])
  {
    var s := before[begin..begin + n];
    assert after[begin..begin + n] == s[i := s[c]][c := s[i]];
  }
}
