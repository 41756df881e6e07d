/**
 * What the sorting and selection routines of src/algorithms/sorting.h
 * promise, stated once: the order `comp` is a strict weak order, a sorted
 * sequence has no later element comp-less than an earlier one, and the k-th
 * smallest element is characterised by counting.
 */
module SortSpec {

  /**
   * A strict weak order, the requirement on every `comp` the sorts take:
   * asymmetric, and "not less than" is transitive.
   */
  ghost predicate StrictWeakOrder<T(!new)>(comp: (T, T) -> bool) {
    && (forall x, y :: comp(x, y) ==> !comp(y, x))
    && (forall x, y, z :: !comp(x, y) && !comp(y, z) ==> !comp(x, z))
  }

  lemma Irreflexive<T(!new)>(comp: (T, T) -> bool, x: T)
    requires StrictWeakOrder(comp)
    ensures !comp(x, x)
  {
  }

  /** A strict weak order is transitive. */
  lemma Transitive<T(!new)>(comp: (T, T) -> bool, x: T, y: T, z: T)
    requires StrictWeakOrder(comp)
    requires comp(x, y) && comp(y, z)
    ensures comp(x, z)
  {
  }

  /** No later element is comp-less than an earlier one. */
  ghost predicate Sorted<T>(s: seq<T>, comp: (T, T) -> bool) {
    forall i, j :: 0 <= i < j < |s| ==> !comp(s[j], s[i])
  }

  /** No element is comp-less than the one just before it. */
  ghost predicate AdjacentSorted<T>(s: seq<T>, comp: (T, T) -> bool) {
    forall i :: 0 < i < |s| ==> !comp(s[i], s[i - 1])
  }

  /** For a strict weak order, checking neighbours is checking every pair. */
  lemma AdjacentSortedIsSorted<T(!new)>(s: seq<T>, comp: (T, T) -> bool)
    requires StrictWeakOrder(comp)
    ensures AdjacentSorted(s, comp) <==> Sorted(s, comp)
  {
    if AdjacentSorted(s, comp) {
      forall i, j | 0 <= i < j < |s|
        ensures !comp(s[j], s[i])
      {
        AdjacentChain(s, comp, i, j);
      }
    }
  }

  lemma {:induction false} AdjacentChain<T(!new)>(s: seq<T>, comp: (T, T) -> bool, i: nat, j: nat)
    requires StrictWeakOrder(comp) && AdjacentSorted(s, comp)
    requires i < j < |s|
    ensures !comp(s[j], s[i])
    decreases j - i
  {
    if i + 1 < j {
      AdjacentChain(s, comp, i, j - 1);
      assert !comp(s[j], s[j - 1]);
    }
  }

  /* ------------------------------------------------------------ Counting */

  /** How many elements of `s` satisfy `p`. */
  function Count<T>(s: seq<T>, p: T -> bool): (n: nat)
    ensures n <= |s|
  {
    if s == [] then 0 else Count(s[..|s| - 1], p) + (if p(s[|s| - 1]) then 1 else 0)
  }

  lemma {:induction false} CountConcat<T>(a: seq<T>, b: seq<T>, p: T -> bool)
    ensures Count(a + b, p) == Count(a, p) + Count(b, p)
    decreases |b|
  {
    if b == [] {
      assert a + b == a;
    } else {
      CountConcat(a, b[..|b| - 1], p);
      assert (a + b)[..|a + b| - 1] == a + b[..|b| - 1];
    }
  }

  /** Counting ignores the order of the elements. */
  lemma {:induction false} CountPermutation<T>(a: seq<T>, b: seq<T>, p: T -> bool)
    requires multiset(a) == multiset(b)
    ensures Count(a, p) == Count(b, p)
    decreases |a|
  {
    if a == [] {
      assert |multiset(b)| == 0;
    } else {
      var x := a[|a| - 1];
      assert x in multiset(b) by {
        assert x in multiset(a);
      }
      var i :| 0 <= i < |b| && b[i] == x;
      var rest := b[..i] + b[i + 1..];
      RemoveAt(b, i);
      assert a == a[..|a| - 1] + [x];
      assert multiset(a) == multiset(a[..|a| - 1]) + multiset{x};
      Cancel(multiset(a[..|a| - 1]), multiset(rest), x);
      CountPermutation(a[..|a| - 1], rest, p);
      CountRemoveAt(b, i, p);
    }
  }

  lemma Cancel<T>(m: multiset<T>, n: multiset<T>, x: T)
    requires m + multiset{x} == n + multiset{x}
    ensures m == n
  {
    forall y
      ensures m[y] == n[y]
    {
      assert (m + multiset{x})[y] == (n + multiset{x})[y];
    }
  }

  lemma RemoveAt<T>(b: seq<T>, i: nat)
    requires i < |b|
    ensures multiset(b) == multiset(b[..i] + b[i + 1..]) + multiset{b[i]}
  {
    assert b == b[..i] + [b[i]] + b[i + 1..];
  }

  lemma CountRemoveAt<T>(b: seq<T>, i: nat, p: T -> bool)
    requires i < |b|
    ensures Count(b, p) == Count(b[..i] + b[i + 1..], p) + (if p(b[i]) then 1 else 0)
  {
    var front, back := b[..i], b[i + 1..];
    SplitAt(b, i);
    CountConcat(front, [b[i]] + back, p);
    CountConcat([b[i]], back, p);
    CountConcat(front, back, p);
    CountSingle(b[i], p);
  }

  lemma SplitAt<T>(b: seq<T>, i: nat)
    requires i < |b|
    ensures b == b[..i] + ([b[i]] + b[i + 1..])
  {
  }

  lemma CountSingle<T>(x: T, p: T -> bool)
    ensures Count([x], p) == if p(x) then 1 else 0
  {
    assert [x][..0] == [];
  }

  /** Every element satisfies `p` exactly when the count is the length. */
  lemma {:induction false} CountAll<T>(s: seq<T>, p: T -> bool)
    requires forall i :: 0 <= i < |s| ==> p(s[i])
    ensures Count(s, p) == |s|
  {
    if s != [] {
      CountAll(s[..|s| - 1], p);
    }
  }

  lemma {:induction false} CountNone<T>(s: seq<T>, p: T -> bool)
    requires forall i :: 0 <= i < |s| ==> !p(s[i])
    ensures Count(s, p) == 0
  {
    if s != [] {
      CountNone(s[..|s| - 1], p);
    }
  }

  /** The elements comp-less than `x`. */
  function Below<T>(comp: (T, T) -> bool, x: T): T -> bool {
    y => comp(y, x)
  }

  /** The elements `x` is not comp-less than. */
  function NotAbove<T>(comp: (T, T) -> bool, x: T): T -> bool {
    y => !comp(x, y)
  }

  /**
   * `x` is the k-th smallest (from 0) element of `s`: it occurs in `s`, at most
   * k elements are below it, and more than k are not above it.
   */
  ghost predicate IsKthSmallest<T>(s: seq<T>, k: nat, x: T, comp: (T, T) -> bool) {
    && x in multiset(s)
    && Count(s, Below(comp, x)) <= k
    && k < Count(s, NotAbove(comp, x))
  }

  /**
   * An element with no greater element before it and no smaller one after it
   * is the k-th smallest of any rearrangement of the sequence.
   */
  lemma PartitionedIsKth<T(!new)>(t: seq<T>, s: seq<T>, k: nat, comp: (T, T) -> bool)
    requires StrictWeakOrder(comp)
    requires k < |t| && multiset(t) == multiset(s)
    requires forall i :: 0 <= i < k ==> !comp(t[k], t[i])
    requires forall i :: k < i < |t| ==> !comp(t[i], t[k])
    ensures IsKthSmallest(s, k, t[k], comp)
  {
    var x := t[k];
    assert t == t[..k] + t[k..];
    assert t == t[..k + 1] + t[k + 1..];
    assert x in multiset(t) by {
      assert t[k] in t;
    }
    CountPermutation(t, s, Below(comp, x));
    CountPermutation(t, s, NotAbove(comp, x));
    CountConcat(t[..k], t[k..], Below(comp, x));
    forall i | 0 <= i < |t[k..]|
      ensures !Below(comp, x)(t[k..][i])
    {
      assert t[k..][i] == t[k + i];
    }
    CountNone(t[k..], Below(comp, x));
    CountConcat(t[..k + 1], t[k + 1..], NotAbove(comp, x));
    var front := t[..k + 1];
    forall i | 0 <= i < |front|
      ensures NotAbove(comp, x)(front[i])
    {
      assert front[i] == t[i];
    }
    CountAll(front, NotAbove(comp, x));
  }

  /** Position k of a sorted rearrangement holds the k-th smallest element. */
  lemma SortedIsKth<T(!new)>(t: seq<T>, s: seq<T>, k: nat, comp: (T, T) -> bool)
    requires StrictWeakOrder(comp)
    requires k < |t| && multiset(t) == multiset(s) && Sorted(t, comp)
    ensures IsKthSmallest(s, k, t[k], comp)
  {
    PartitionedIsKth(t, s, k, comp);
  }

  /* ------------------------------------------------- Ranges of an array */

  /**
   * Rearranging the range [lo, hi) while leaving everything outside it alone
   * keeps the range's own multiset.
   */
  lemma SliceMultiset<T>(s: seq<T>, t: seq<T>, lo: nat, hi: nat)
    requires lo <= hi <= |s| == |t|
    requires multiset(s) == multiset(t)
    requires forall i :: 0 <= i < |s| && (i < lo || hi <= i) ==> s[i] == t[i]
    ensures multiset(s[lo..hi]) == multiset(t[lo..hi])
  {
    assert s[..lo] == t[..lo];
    assert s[hi..] == t[hi..];
    ThreeSlices(s, lo, hi);
    ThreeSlices(t, lo, hi);
    var out := multiset(s[..lo]) + multiset(s[hi..]);
    Cancel3(multiset(s[lo..hi]), multiset(t[lo..hi]), out);
  }

  /** A sequence's multiset is the sum of those of three consecutive slices. */
  lemma ThreeSlices<T>(s: seq<T>, lo: nat, hi: nat)
    requires lo <= hi <= |s|
    ensures multiset(s) == multiset(s[lo..hi]) + (multiset(s[..lo]) + multiset(s[hi..]))
  {
    assert s == s[..lo] + s[lo..hi] + s[hi..];
  }

  lemma Cancel3<T>(m: multiset<T>, n: multiset<T>, out: multiset<T>)
    requires m + out == n + out
    ensures m == n
  {
    forall y
      ensures m[y] == n[y]
    {
      assert (m + out)[y] == (n + out)[y];
    }
  }

  /**
   * A sorted part, an element, and a sorted part, where the first part is
   * below the element and the second not below it, make a sorted sequence.
   */
  lemma SortedAround<T(!new)>(left: seq<T>, x: T, right: seq<T>, comp: (T, T) -> bool)
    requires StrictWeakOrder(comp)
    requires Sorted(left, comp) && Sorted(right, comp)
    requires forall y :: y in left ==> comp(y, x)
    requires forall y :: y in right ==> !comp(y, x)
    ensures Sorted(left + [x] + right, comp)
  {
    var s := left + [x] + right;
    forall i, j | 0 <= i < j < |s|
      ensures !comp(s[j], s[i])
    {
      if j < |left| {
        assert s[i] == left[i] && s[j] == left[j];
      } else if i > |left| {
        assert s[i] == right[i - |left| - 1] && s[j] == right[j - |left| - 1];
      } else if i < |left| {
        assert s[i] in left;
        if j > |left| {
          assert s[j] in right by {
            assert s[j] == right[j - |left| - 1];
          }
        }
      } else {
        assert s[j] in right by {
          assert s[j] == right[j - |left| - 1];
        }
      }
    }
  }

  /** An element no later element is below, in front of a sorted sequence. */
  lemma SortedCons<T>(h: T, rest: seq<T>, comp: (T, T) -> bool)
    requires Sorted(rest, comp)
    requires forall y :: y in rest ==> !comp(y, h)
    ensures Sorted([h] + rest, comp)
  {
    var s := [h] + rest;
    forall i, j | 0 <= i < j < |s|
      ensures !comp(s[j], s[i])
    {
      assert s[j] == rest[j - 1];
      if i > 0 {
        assert s[i] == rest[i - 1];
      }
    }
  }

  /**
   * Every element before [lo, hi) is not above any element inside it, and
   * every element after it is not below any element inside it.
   */
  ghost predicate Separated<T>(s: seq<T>, lo: nat, hi: nat, comp: (T, T) -> bool)
    requires lo <= hi <= |s|
  {
    && (forall i, j :: 0 <= i < lo <= j < hi ==> !comp(s[j], s[i]))
    && (forall i, j :: lo <= i < hi <= j < |s| ==> !comp(s[j], s[i]))
  }

  /** Rearranging inside the range keeps it separated from the rest. */
  lemma SeparatedPermute<T>(s: seq<T>, t: seq<T>, lo: nat, hi: nat, comp: (T, T) -> bool)
    requires lo <= hi <= |s| == |t|
    requires Separated(s, lo, hi, comp)
    requires multiset(s[lo..hi]) == multiset(t[lo..hi])
    requires forall i :: 0 <= i < |s| && (i < lo || hi <= i) ==> s[i] == t[i]
    ensures Separated(t, lo, hi, comp)
  {
    forall j | lo <= j < hi
      ensures exists j' :: lo <= j' < hi && s[j'] == t[j]
    {
      assert t[j] == t[lo..hi][j - lo];
      assert t[j] in multiset(s[lo..hi]);
      var m :| 0 <= m < hi - lo && s[lo..hi][m] == t[j];
      assert s[lo + m] == t[j];
    }
  }

  /* ------------------------------------------------------------ Integers */

  /** `<` on integers, the default comparison (std::less). */
  function IntLess(x: int, y: int): bool {
    x < y
  }

  lemma IntLessIsStrictWeakOrder()
    ensures StrictWeakOrder(IntLess)
  {
  }

  /** A sequence sorted by `<` is ascending: every earlier element is at most every later one. */
  lemma SortedAscending(t: seq<int>)
    requires Sorted(t, IntLess)
    ensures forall i, j :: 0 <= i <= j < |t| ==> t[i] <= t[j]
  {
    forall i, j | 0 <= i < j < |t|
      ensures t[i] <= t[j]
    {
      assert !IntLess(t[j], t[i]);
    }
  }

  /** A weaker test counts at least as many elements. */
  lemma {:induction false} CountMonotone<T>(s: seq<T>, p: T -> bool, q: T -> bool)
    requires forall x :: p(x) ==> q(x)
    ensures Count(s, p) <= Count(s, q)
  {
    if s != [] {
      CountMonotone(s[..|s| - 1], p, q);
    }
  }
}
