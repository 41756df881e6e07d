/**
 * MergeSort of src/algorithms/sorting.h, on an array with index ranges in
 * place of iterators. `comp` is a strict weak order.
 */
module MergeSorts {
  import opened SortSpec

  /**
   * The merge of two sequences as the merge loop takes elements: the left
   * head when it is comp-less than the right head, the right head otherwise
   * (so on ties the right element comes first).
   */
  ghost function Merged<T>(xs: seq<T>, ys: seq<T>, comp: (T, T) -> bool): seq<T>
    decreases |xs| + |ys|
  {
    if xs == [] then ys
    else if ys == [] then xs
    else if comp(xs[0], ys[0]) then [xs[0]] + Merged(xs[1..], ys, comp)
    else [ys[0]] + Merged(xs, ys[1..], comp)
  }

  /** The merge holds exactly the elements of both inputs. */
  lemma {:induction false} MergedPermutes<T>(xs: seq<T>, ys: seq<T>, comp: (T, T) -> bool)
    ensures multiset(Merged(xs, ys, comp)) == multiset(xs) + multiset(ys)
    decreases |xs| + |ys|
  {
    if xs != [] && ys != [] {
      if comp(xs[0], ys[0]) {
        MergedPermutes(xs[1..], ys, comp);
        ConsPermutes(xs[0], Merged(xs[1..], ys, comp), xs[1..], ys);
        assert xs == [xs[0]] + xs[1..];
      } else {
        MergedPermutes(xs, ys[1..], comp);
        ConsPermutes(ys[0], Merged(xs, ys[1..], comp), ys[1..], xs);
        assert ys == [ys[0]] + ys[1..];
      }
    }
  }

  lemma ConsPermutes<T>(x: T, rest: seq<T>, u: seq<T>, v: seq<T>)
    requires multiset(rest) == multiset(u) + multiset(v)
    ensures multiset([x] + rest) == multiset([x] + u) + multiset(v)
  {
  }

  /** The merge is as long as both inputs together. */
  lemma {:induction false} MergedLength<T>(xs: seq<T>, ys: seq<T>, comp: (T, T) -> bool)
    ensures |Merged(xs, ys, comp)| == |xs| + |ys|
    decreases |xs| + |ys|
  {
    if xs != [] && ys != [] {
      if comp(xs[0], ys[0]) {
        MergedLength(xs[1..], ys, comp);
      } else {
        MergedLength(xs, ys[1..], comp);
      }
    }
  }

  /** Merging two sorted sequences gives a sorted sequence. */
  lemma {:induction false} MergedSorted<T(!new)>(xs: seq<T>, ys: seq<T>, comp: (T, T) -> bool)
    requires StrictWeakOrder(comp)
    requires Sorted(xs, comp) && Sorted(ys, comp)
    ensures Sorted(Merged(xs, ys, comp), comp)
    decreases |xs| + |ys|
  {
    if xs != [] && ys != [] {
      if comp(xs[0], ys[0]) {
        var rest := Merged(xs[1..], ys, comp);
        MergedSorted(xs[1..], ys, comp);
        MergedPermutes(xs[1..], ys, comp);
        forall y | y in rest
          ensures !comp(y, xs[0])
        {
          assert y in multiset(xs[1..]) + multiset(ys);
          if y in xs[1..] {
            var i :| 0 <= i < |xs| - 1 && xs[1..][i] == y;
            assert xs[i + 1] == y;
          } else {
            var j :| 0 <= j < |ys| && ys[j] == y;
          }
        }
        SortedCons(xs[0], rest, comp);
      } else {
        var rest := Merged(xs, ys[1..], comp);
        MergedSorted(xs, ys[1..], comp);
        MergedPermutes(xs, ys[1..], comp);
        forall y | y in rest
          ensures !comp(y, ys[0])
        {
          assert y in multiset(xs) + multiset(ys[1..]);
          if y in ys[1..] {
            var j :| 0 <= j < |ys| - 1 && ys[1..][j] == y;
            assert ys[j + 1] == y;
          } else {
            var i :| 0 <= i < |xs| && xs[i] == y;
            assert i == 0 || !comp(y, xs[0]);
          }
        }
        SortedCons(ys[0], rest, comp);
      }
    }
  }

  /**
   * mergesort_impl (sorting.h:122-137): ranges of at most one element are
   * left alone; otherwise both halves are sorted and then merged.
   */
  method MergeSortImpl<T(!new)>(a: array<T>, l: nat, r: nat, comp: (T, T) -> bool)
    requires StrictWeakOrder(comp)
    requires l <= r <= a.Length
    modifies a
    ensures Sorted(a[l..r], comp)
    ensures multiset(a[l..r]) == old(multiset(a[l..r]))
    ensures forall i :: 0 <= i < a.Length && (i < l || r <= i) ==> a[i] == old(a[i])
    decreases r - l
  {
    var dist := r - l;
    if dist <= 1 {
      assert a[l..r] == [] || a[l..r] == [a[l]];
      return;
    }
    var mid := l + dist / 2;
    ghost var s0 := a[..];
    MergeSortImpl(a, l, mid, comp);
    ghost var s1 := a[..];
    MergeSortImpl(a, mid, r, comp);
    ghost var s2 := a[..];
    assert s1[mid..r] == s0[mid..r];
    assert s2[l..mid] == s1[l..mid];
    HalvesPermute(s0, s2, l, mid, r);
    Merge(a, l, mid, r, comp);
    MergedSorted(s2[l..mid], s2[mid..r], comp);
    MergedPermutes(s2[l..mid], s2[mid..r], comp);
  }

  /** Permuting both halves of a range permutes the whole range. */
  lemma HalvesPermute<T>(s0: seq<T>, s2: seq<T>, l: nat, mid: nat, r: nat)
    requires l <= mid <= r <= |s0| == |s2|
    requires multiset(s2[l..mid]) == multiset(s0[l..mid])
    requires multiset(s2[mid..r]) == multiset(s0[mid..r])
    ensures multiset(s2[l..mid]) + multiset(s2[mid..r]) == multiset(s0[l..r])
  {
    assert s0[l..r] == s0[l..mid] + s0[mid..r];
  }

  /**
   * MergeSort over a range (sorting.h:85-140): ranges of at most one element
   * are left alone, otherwise the range ends sorted and a permutation of
   * what it held.
   */
  method MergeSortRange<T(!new)>(a: array<T>, first: nat, last: nat, comp: (T, T) -> bool)
    requires StrictWeakOrder(comp)
    requires first <= last <= a.Length
    modifies a
    ensures Sorted(a[first..last], comp)
    ensures multiset(a[first..last]) == old(multiset(a[first..last]))
    ensures forall i :: 0 <= i < a.Length && (i < first || last <= i) ==> a[i] == old(a[i])
  {
    var dist := last - first;
    if dist <= 1 {
      assert a[first..last] == [] || a[first..last] == [a[first]];
      return;
    }
    MergeSortImpl(a, first, last, comp);
  }

  /** MergeSort of a whole vector (sorting.h:148-153). */
  method MergeSort<T(!new)>(a: array<T>, comp: (T, T) -> bool)
    requires StrictWeakOrder(comp)
    modifies a
    ensures Sorted(a[..], comp)
    ensures multiset(a[..]) == old(multiset(a[..]))
  {
    if a.Length != 0 {
      assert a[..] == a[0..a.Length];
      MergeSortRange(a, 0, a.Length, comp);
      assert a[..] == a[0..a.Length];
    }
  }

  /** One step of the merge: the smaller head is the merge's first element. */
  lemma MergedStep<T>(xs: seq<T>, ys: seq<T>, comp: (T, T) -> bool)
    requires xs != [] && ys != []
    ensures comp(xs[0], ys[0]) ==> Merged(xs, ys, comp) == [xs[0]] + Merged(xs[1..], ys, comp)
    ensures !comp(xs[0], ys[0]) ==> Merged(xs, ys, comp) == [ys[0]] + Merged(xs, ys[1..], comp)
  {
  }

  /**
   * The merge helper (sorting.h:95-119): merges the adjacent ranges
   * [left, middle) and [middle, right) through a temporary buffer and copies
   * the buffer back over them.
   */
  method Merge<T>(a: array<T>, left: nat, middle: nat, right: nat, comp: (T, T) -> bool)
    requires left <= middle <= right <= a.Length
    modifies a
    ensures a[left..right] == Merged(old(a[left..middle]), old(a[middle..right]), comp)
    ensures forall i :: 0 <= i < a.Length && (i < left || right <= i) ==> a[i] == old(a[i])
  {
    var temp := MergeIntoBuffer(a, left, middle, right, comp);
    ghost var merged := temp[..];
    assert merged == Merged(old(a[left..middle]), old(a[middle..right]), comp);
    for c := 0 to right - left
      invariant temp[..] == merged
      invariant forall i :: 0 <= i < c ==> a[left + i] == temp[i]
      invariant forall i :: 0 <= i < a.Length && (i < left || left + c <= i) ==> a[i] == old(a[i])
    {
      a[left + c] := temp[c];
    }
    assert a[left..right] == temp[..];
  }

  /**
   * The merge into the temporary buffer (sorting.h:96-115): the merge loop
   * takes the left head only when it is comp-less than the right head; then
   * what is left of either range is copied after it.
   */
  method MergeIntoBuffer<T>(a: array<T>, left: nat, middle: nat, right: nat, comp: (T, T) -> bool) returns (temp: array<T>)
    requires left <= middle <= right <= a.Length
    ensures fresh(temp) && temp.Length == right - left
    ensures temp[..] == Merged(a[left..middle], a[middle..right], comp)
  {
    ghost var whole := Merged(a[left..middle], a[middle..right], comp);
    MergedLength(a[left..middle], a[middle..right], comp);
    var original := a[left..right];
    temp := new T[right - left](i requires 0 <= i < right - left => original[i]);
    var it1, it2, t := MergeLoop(a, left, middle, right, temp, whole, comp);
    if it1 == middle {
      assert a[it1..middle] == [];
    } else {
      assert a[it2..right] == [];
    }
    assert whole == temp[..t] + a[it1..middle] + a[it2..right];
    ThreeParts(temp[..t], a[it1..middle], a[it2..right]);
    CopyRest(a, it1, middle, temp, t, whole);
    CopyRest(a, it2, right, temp, t + (middle - it1), whole);
    assert temp[..] == whole by {
      forall i | 0 <= i < |whole|
        ensures temp[i] == whole[i]
      {
        if i < t {
          assert whole[..t][i] == whole[i];
        }
      }
    }
  }

  /**
   * The merge loop (sorting.h:98-109): while both ranges have elements, the
   * left head goes to the buffer when it is comp-less than the right head,
   * otherwise the right head does.
   */
  method MergeLoop<T>(a: array<T>, left: nat, middle: nat, right: nat, temp: array<T>, ghost whole: seq<T>, comp: (T, T) -> bool)
    returns (it1: nat, it2: nat, t: nat)
    requires left <= middle <= right <= a.Length && temp != a
    requires temp.Length == right - left == |whole|
    requires whole == Merged(a[left..middle], a[middle..right], comp)
    modifies temp
    ensures left <= it1 <= middle <= it2 <= right && (it1 == middle || it2 == right)
    ensures t == (it1 - left) + (it2 - middle)
    ensures temp[..t] + Merged(a[it1..middle], a[it2..right], comp) == whole
  {
    it1, it2, t := left, middle, 0;
    while it1 != middle && it2 != right
      invariant left <= it1 <= middle <= it2 <= right
      invariant t == (it1 - left) + (it2 - middle)
      invariant temp[..t] + Merged(a[it1..middle], a[it2..right], comp) == whole
      decreases right - t
    {
      ghost var prefix := temp[..t];
      ghost var xs, ys := a[it1..middle], a[it2..right];
      ghost var before := Merged(xs, ys, comp);
      assert prefix + before == whole;
      MergedStep(xs, ys, comp);
      var x;
      if comp(a[it1], a[it2]) {
        x := a[it1];
        it1 := it1 + 1;
        assert xs[1..] == a[it1..middle];
      } else {
        x := a[it2];
        it2 := it2 + 1;
        assert ys[1..] == a[it2..right];
      }
      ghost var rest := Merged(a[it1..middle], a[it2..right], comp);
      assert before == [x] + rest;
      temp[t] := x;
      t := t + 1;
      assert temp[..t] == prefix + [x];
      AppendAssociates(prefix, [x], rest);
    }
  }

  /**
   * std::copy of the remaining part [from, to) of a range into the buffer
   * at `t`, where the merge says it belongs.
   */
  method CopyRest<T>(a: array<T>, from: nat, to: nat, temp: array<T>, t: nat, ghost whole: seq<T>)
    requires from <= to <= a.Length && temp != a
    requires |whole| == temp.Length && t + (to - from) <= temp.Length
    requires whole[t..t + (to - from)] == a[from..to]
    modifies temp
    ensures forall i :: t <= i < t + (to - from) ==> temp[i] == whole[i]
    ensures forall i :: 0 <= i < temp.Length && (i < t || t + (to - from) <= i) ==> temp[i] == old(temp[i])
  {
    for c := 0 to to - from
      invariant forall i :: t <= i < t + c ==> temp[i] == whole[i]
      invariant temp != a
      invariant forall i :: 0 <= i < temp.Length && (i < t || t + c <= i) ==> temp[i] == old(temp[i])
    {
      assert whole[t + c] == whole[t..t + (to - from)][c] == a[from + c];
      temp[t + c] := a[from + c];
    }
  }

  lemma AppendAssociates<T>(p: seq<T>, q: seq<T>, r: seq<T>)
    ensures (p + q) + r == p + (q + r)
  {
  }

  lemma ThreeParts<T>(p: seq<T>, q: seq<T>, r: seq<T>)
    ensures (p + q + r)[..|p|] == p
    ensures (p + q + r)[|p|..|p| + |q|] == q
    ensures (p + q + r)[|p| + |q|..|p| + |q| + |r|] == r
  {
  }
}
