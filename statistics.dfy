/**
 * The statistics of src/math/statistics.h over integer values. The library
 * computes with double; here the same quantities are exact `real`s, so
 * rounding is not modelled, and std::sqrt is a parameter taken to return the
 * non-negative square root.
 */
module Statistics {
  import opened Wrappers
  import opened IntSeqs
  import opened IntSets
  import opened SortSpec
  import InsertionSorts

  /* ------------------------------------------------------------- Sum */

  /**
   * std::accumulate with `+` from T{} (statistics.h:161-164): a left fold
   * from 0, so no values sum to 0, one value sums to itself, and
   * non-negative values have a non-negative sum.
   */
  function Sum(s: seq<int>): (r: int)
    ensures s == [] ==> r == 0
    ensures |s| == 1 ==> r == s[0]
    ensures (forall i :: 0 <= i < |s| ==> s[i] >= 0) ==> r >= 0
  {
    if s == [] then 0 else Sum(s[..|s| - 1]) + s[|s| - 1]
  }

  /** The sum of a concatenation is the sum of the sums. */
  lemma {:induction false} SumConcat(a: seq<int>, b: seq<int>)
    ensures Sum(a + b) == Sum(a) + Sum(b)
    decreases |b|
  {
    if b == [] {
      assert a + b == a;
    } else {
      SumConcat(a, b[..|b| - 1]);
      assert (a + b)[..|a + b| - 1] == a + b[..|b| - 1];
    }
  }

  /** The order in which the values are accumulated does not matter. */
  lemma {:induction false} SumPermutation(a: seq<int>, b: seq<int>)
    requires multiset(a) == multiset(b)
    ensures Sum(a) == Sum(b)
    decreases |a|
  {
    if a == [] {
      assert |multiset(b)| == 0;
    } else {
      var x := a[|a| - 1];
      assert x in multiset(b) by {
        assert x in multiset(a);
      }
      var i :| 0 <= i < |b| && b[i] == x;
      var rest := b[..i] + b[i + 1..];
      RemoveAt(b, i);
      assert a == a[..|a| - 1] + [x];
      assert multiset(a) == multiset(a[..|a| - 1]) + multiset{x};
      Cancel(multiset(a[..|a| - 1]), multiset(rest), x);
      SumPermutation(a[..|a| - 1], rest);
      assert b == (b[..i] + [x]) + b[i + 1..];
      SumConcat(b[..i] + [x], b[i + 1..]);
      SumConcat(b[..i], [x]);
      SumConcat(b[..i], b[i + 1..]);
      assert Sum([x]) == x by {
        assert [x][..0] == [];
      }
    }
  }

  /** Values between `lo` and `hi` sum to between n * lo and n * hi. */
  lemma {:induction false} SumWithin(s: seq<int>, lo: int, hi: int)
    requires forall i :: 0 <= i < |s| ==> lo <= s[i] <= hi
    ensures |s| * lo <= Sum(s) <= |s| * hi
  {
    if s != [] {
      SumWithin(s[..|s| - 1], lo, hi);
      assert |s| * lo == (|s| - 1) * lo + lo;
      assert |s| * hi == (|s| - 1) * hi + hi;
    }
  }

  /* --------------------------------------------------------- Product */

  /**
   * std::accumulate with std::multiplies from T{1} (statistics.h:172-176):
   * no values multiply to 1, non-negative values give a non-negative
   * product, and non-zero values a non-zero one.
   */
  function Product(s: seq<int>): (r: int)
    ensures s == [] ==> r == 1
    ensures (forall i :: 0 <= i < |s| ==> s[i] >= 0) ==> r >= 0
    ensures (forall i :: 0 <= i < |s| ==> s[i] != 0) ==> r != 0
  {
    if s == [] then 1 else Product(s[..|s| - 1]) * s[|s| - 1]
  }

  /** The product of a concatenation is the product of the products. */
  lemma {:induction false} ProductConcat(a: seq<int>, b: seq<int>)
    ensures Product(a + b) == Product(a) * Product(b)
    decreases |b|
  {
    if b == [] {
      assert a + b == a;
    } else {
      var last := b[|b| - 1];
      ProductConcat(a, b[..|b| - 1]);
      assert (a + b)[..|a + b| - 1] == a + b[..|b| - 1];
      assert (Product(a) * Product(b[..|b| - 1])) * last == Product(a) * (Product(b[..|b| - 1]) * last);
    }
  }

  /** The product is zero exactly when some value is zero. */
  lemma {:induction false} ProductZero(s: seq<int>)
    ensures Product(s) == 0 <==> 0 in s
  {
    if s != [] {
      ProductZero(s[..|s| - 1]);
      assert s == s[..|s| - 1] + [s[|s| - 1]];
      MulZero(Product(s[..|s| - 1]), s[|s| - 1]);
    }
  }

  lemma MulZero(x: int, y: int)
    ensures x * y == 0 <==> x == 0 || y == 0
  {
  }

  /* ----------------------------------------------------------- Range */

  /**
   * std::minmax_element (statistics.h:145-153): absent exactly for no
   * values, otherwise two of the values that bound all of them.
   */
  function Range(s: seq<int>): (r: Option<(int, int)>)
    ensures r.None? <==> s == []
    ensures r.Some? ==> r.value.0 in s && r.value.1 in s
    ensures r.Some? ==> forall i :: 0 <= i < |s| ==> r.value.0 <= s[i] <= r.value.1
  {
    if s == [] then None else Some((MinOf(s), MaxOf(s)))
  }

  /* ------------------------------------------------------------ Mean */

  /**
   * The arithmetic mean (statistics.h:25-33): absent exactly for no values,
   * otherwise between the smallest and the largest value.
   */
  function Mean(s: seq<int>): (r: Option<real>)
    ensures r.None? <==> s == []
    ensures r.Some? ==> MinOf(s) as real <= r.value <= MaxOf(s) as real
  {
    if s == [] then None
    else
      SumWithin(s, MinOf(s), MaxOf(s));
      DivWithin(Sum(s), |s|, MinOf(s), MaxOf(s));
      Some(Sum(s) as real / |s| as real)
  }

  lemma DivWithin(a: int, n: int, lo: int, hi: int)
    requires n > 0 && n * lo <= a <= n * hi
    ensures lo as real <= a as real / n as real <= hi as real
  {
    assert (n * lo) as real == n as real * lo as real;
    assert (n * hi) as real == n as real * hi as real;
    assert a as real / n as real * n as real == a as real;
  }

  /** The mean of equal values is that value. */
  lemma MeanOfConstant(s: seq<int>)
    requires s != []
    requires forall i :: 0 <= i < |s| ==> s[i] == s[0]
    ensures Mean(s) == Some(s[0] as real)
  {
    var lo := MinOf(s);
    var hi := MaxOf(s);
    assert lo == s[0] && hi == s[0];
  }

  /* -------------------------------------------------------- Variance */

  /** d * d, the square the accumulation loops add up. */
  function Square(d: real): (r: real)
    ensures r >= 0.0
  {
    d * d
  }

  /** The sum of (x - m)^2 over the values, accumulated left to right. */
  function SquaredDeviations(s: seq<int>, m: real): (r: real)
    ensures r >= 0.0
  {
    if s == [] then 0.0
    else SquaredDeviations(s[..|s| - 1], m) + Square(s[|s| - 1] as real - m)
  }

  /** One more step of the accumulation loop adds one more squared deviation. */
  lemma SquaredDeviationsNext(s: seq<int>, m: real, i: nat)
    requires i < |s|
    ensures SquaredDeviations(s[..i + 1], m) == SquaredDeviations(s[..i], m) + Square(s[i] as real - m)
  {
    assert s[..i + 1][..i] == s[..i];
  }

  /** Values that all equal `m` do not deviate from it. */
  lemma {:induction false} SquaredDeviationsAtValue(s: seq<int>, m: real)
    requires forall i :: 0 <= i < |s| ==> s[i] as real == m
    ensures SquaredDeviations(s, m) == 0.0
  {
    if s != [] {
      SquaredDeviationsAtValue(s[..|s| - 1], m);
    }
  }

  /** The divisor of statistics.h:117: n - 1 for a sample, n for a population. */
  function Denominator(n: nat, sample: bool): real {
    if sample then (n - 1) as real else n as real
  }

  /**
   * The variance (statistics.h:98-119): absent exactly for fewer than two
   * values, otherwise never negative.
   */
  function VarianceOf(s: seq<int>, sample: bool): (r: Option<real>)
    ensures r.None? <==> |s| < 2
    ensures r.Some? ==> r.value >= 0.0
  {
    if |s| < 2 then None
    else
      var denominator := Denominator(|s|, sample);
      var sumSquaredDiff := SquaredDeviations(s, Mean(s).value);
      assert denominator > 0.0;
      Some(sumSquaredDiff / denominator)
  }

  /** Equal values have variance zero. */
  lemma VarianceOfConstant(s: seq<int>, sample: bool)
    requires |s| >= 2
    requires forall i :: 0 <= i < |s| ==> s[i] == s[0]
    ensures VarianceOf(s, sample) == Some(0.0)
  {
    MeanOfConstant(s);
    SquaredDeviationsAtValue(s, s[0] as real);
  }

  /** Variance as the source computes it, with its accumulation loop (statistics.h:98-119). */
  method Variance(values: seq<int>, sample: bool := true) returns (r: Option<real>)
    ensures r.None? <==> |values| < 2
    ensures r == VarianceOf(values, sample)
  {
    if |values| < 2 {
      return None;
    }
    var mean := Mean(values).value;
    var sumSquaredDiff := 0.0;
    var i := 0;
    while i < |values|
      invariant 0 <= i <= |values|
      invariant sumSquaredDiff == SquaredDeviations(values[..i], mean)
    {
      var diff := values[i] as real - mean;
      SquaredDeviationsNext(values, mean, i);
      sumSquaredDiff := sumSquaredDiff + Square(diff);
      i := i + 1;
    }
    assert values[..i] == values;
    var denominator := if sample then (|values| - 1) as real else |values| as real;
    r := Some(sumSquaredDiff / denominator);
  }

  /* ---------------------------------------------- Standard deviation */

  /** What std::sqrt is taken to be: a non-negative square root of every non-negative number. */
  ghost predicate IsSqrt(sqrt: real -> real) {
    forall x :: 0.0 <= x ==> 0.0 <= sqrt(x) && sqrt(x) * sqrt(x) == x
  }

  /**
   * The standard deviation (statistics.h:129-137): absent exactly when the
   * variance is, otherwise the non-negative root of the variance. `sample`
   * defaults to true as in the source; it comes after the `sqrt` parameter.
   */
  function StandardDeviation(s: seq<int>, sqrt: real -> real, sample: bool := true): (r: Option<real>)
    requires IsSqrt(sqrt)
    ensures r.None? <==> |s| < 2
    ensures r.Some? ==> 0.0 <= r.value && r.value * r.value == VarianceOf(s, sample).value
  {
    match VarianceOf(s, sample)
    case None => None
    case Some(variance) => Some(sqrt(variance))
  }

  /* ----------------------------------------------------- Correlation */

  /** The sum of (x - mx) * (y - my) over paired values, accumulated left to right. */
  function CrossDeviations(x: seq<int>, y: seq<int>, mx: real, my: real): real
    requires |x| == |y|
  {
    if x == [] then 0.0
    else
      CrossDeviations(x[..|x| - 1], y[..|y| - 1], mx, my) + Times(x[|x| - 1] as real - mx, y[|y| - 1] as real - my)
  }

  /** dx * dy, the product the correlation loop adds up. */
  function Times(dx: real, dy: real): real {
    dx * dy
  }

  lemma CrossDeviationsNext(x: seq<int>, y: seq<int>, mx: real, my: real, i: nat)
    requires i < |x| == |y|
    ensures CrossDeviations(x[..i + 1], y[..i + 1], mx, my)
         == CrossDeviations(x[..i], y[..i], mx, my) + Times(x[i] as real - mx, y[i] as real - my)
  {
    assert x[..i + 1][..i] == x[..i];
    assert y[..i + 1][..i] == y[..i];
  }

  lemma {:induction false} CrossDeviationsSymmetric(x: seq<int>, y: seq<int>, mx: real, my: real)
    requires |x| == |y|
    ensures CrossDeviations(x, y, mx, my) == CrossDeviations(y, x, my, mx)
  {
    if x != [] {
      CrossDeviationsSymmetric(x[..|x| - 1], y[..|y| - 1], mx, my);
    }
  }

  /**
   * Pearson's correlation (statistics.h:187-223): absent when the sizes
   * differ or there are fewer than two pairs, zero when either side does
   * not vary, otherwise the covariance over the root of the product of the
   * two squared deviations.
   */
  function CorrelationOf(x: seq<int>, y: seq<int>, sqrt: real -> real): (r: Option<real>)
    requires IsSqrt(sqrt)
    ensures r.None? <==> |x| != |y| || |x| < 2
  {
    if |x| != |y| || |x| < 2 then None
    else
      var meanX := Mean(x).value;
      var meanY := Mean(y).value;
      var numerator := CrossDeviations(x, y, meanX, meanY);
      var denominatorX := SquaredDeviations(x, meanX);
      var denominatorY := SquaredDeviations(y, meanY);
      if denominatorX == 0.0 || denominatorY == 0.0 then Some(0.0)
      else
        RootOfPositive(denominatorX, denominatorY, sqrt);
        Some(Quotient(numerator, sqrt(Times(denominatorX, denominatorY))))
  }

  /** a / b, the one division the correlation makes. */
  function Quotient(a: real, b: real): real
    requires b != 0.0
  {
    a / b
  }

  /** The product of two positive squared deviations has a positive root, so the division is defined. */
  lemma RootOfPositive(a: real, b: real, sqrt: real -> real)
    requires IsSqrt(sqrt)
    requires a > 0.0 && b > 0.0
    ensures sqrt(Times(a, b)) > 0.0
  {
    var p := Times(a, b);
    assert p > 0.0;
    assert sqrt(p) * sqrt(p) == p;
  }

  /** Correlation does not depend on which series comes first. */
  lemma CorrelationSymmetric(x: seq<int>, y: seq<int>, sqrt: real -> real)
    requires IsSqrt(sqrt)
    ensures CorrelationOf(x, y, sqrt) == CorrelationOf(y, x, sqrt)
  {
    if |x| == |y| && |x| >= 2 {
      var meanX := Mean(x).value;
      var meanY := Mean(y).value;
      CrossDeviationsSymmetric(x, y, meanX, meanY);
      assert Times(SquaredDeviations(x, meanX), SquaredDeviations(y, meanY))
          == Times(SquaredDeviations(y, meanY), SquaredDeviations(x, meanX));
    }
  }

  /** A series that does not vary has correlation zero with any series of its size. */
  lemma CorrelationOfConstant(x: seq<int>, y: seq<int>, sqrt: real -> real)
    requires IsSqrt(sqrt)
    requires |x| == |y| && |x| >= 2
    requires forall i :: 0 <= i < |x| ==> x[i] == x[0]
    ensures CorrelationOf(x, y, sqrt) == Some(0.0)
  {
    MeanOfConstant(x);
    SquaredDeviationsAtValue(x, x[0] as real);
  }

  /** Correlation as the source computes it, with its one accumulation loop (statistics.h:187-223). */
  method Correlation(x: seq<int>, y: seq<int>, sqrt: real -> real) returns (r: Option<real>)
    requires IsSqrt(sqrt)
    ensures r.None? <==> |x| != |y| || |x| < 2
    ensures r == CorrelationOf(x, y, sqrt)
  {
    if |x| != |y| || |x| < 2 {
      return None;
    }
    var meanX := Mean(x).value;
    var meanY := Mean(y).value;
    var numerator := 0.0;
    var denominatorX := 0.0;
    var denominatorY := 0.0;
    var i := 0;
    while i < |x|
      invariant 0 <= i <= |x|
      invariant numerator == CrossDeviations(x[..i], y[..i], meanX, meanY)
      invariant denominatorX == SquaredDeviations(x[..i], meanX)
      invariant denominatorY == SquaredDeviations(y[..i], meanY)
    {
      var diffX := x[i] as real - meanX;
      var diffY := y[i] as real - meanY;
      CrossDeviationsNext(x, y, meanX, meanY, i);
      SquaredDeviationsNext(x, meanX, i);
      SquaredDeviationsNext(y, meanY, i);
      numerator := numerator + Times(diffX, diffY);
      denominatorX := denominatorX + Square(diffX);
      denominatorY := denominatorY + Square(diffY);
      i := i + 1;
    }
    assert x[..i] == x && y[..i] == y;
    if denominatorX == 0.0 || denominatorY == 0.0 {
      return Some(0.0);
    }
    RootOfPositive(denominatorX, denominatorY, sqrt);
    r := Some(Quotient(numerator, sqrt(Times(denominatorX, denominatorY))));
  }

  /* ------------------------------------------------------------ Mode */

  /** The hash map of occurrence counts built at statistics.h:72-75. */
  method CountOccurrences(values: seq<int>) returns (counts: map<int, int>)
    ensures forall x :: x in counts <==> x in values
    ensures forall x :: x in counts ==> counts[x] == multiset(values)[x]
  {
    counts := map[];
    var i := 0;
    while i < |values|
      invariant 0 <= i <= |values|
      invariant forall x :: x in counts <==> x in values[..i]
      invariant forall x :: x in counts ==> counts[x] == multiset(values[..i])[x]
    {
      var value := values[i];
      assert values[..i + 1] == values[..i] + [value];
      if value in counts {
        counts := counts[value := counts[value] + 1];
      } else {
        counts := counts[value := 1];
      }
      i := i + 1;
    }
    assert values[..i] == values;
  }

  /**
   * The scan of statistics.h:77-85: starting from `first` and a best count
   * of 0, keep each key whose count beats the best so far. The hash map is
   * walked in no particular order, so each step takes any key not yet seen.
   */
  method MostFrequent(counts: map<int, int>, first: int) returns (mode: int)
    requires first in counts
    requires forall x :: x in counts ==> counts[x] > 0
    ensures mode in counts
    ensures forall x :: x in counts ==> counts[x] <= counts[mode]
  {
    mode := first;
    var maxCount := 0;
    var unvisited := counts.Keys;
    while unvisited != {}
      invariant unvisited <= counts.Keys
      invariant mode in counts
      invariant forall x :: x in counts && x !in unvisited ==> counts[x] <= maxCount
      invariant unvisited == counts.Keys || counts[mode] == maxCount
      invariant unvisited == counts.Keys ==> maxCount == 0
      decreases |unvisited|
    {
      HasElement(unvisited);
      var value :| value in unvisited;
      if counts[value] > maxCount {
        mode := value;
        maxCount := counts[value];
      }
      unvisited := unvisited - {value};
    }
  }

  /**
   * The most frequent value (statistics.h:66-88): absent exactly for no
   * values, otherwise a value occurring at least as often as any other;
   * among equally frequent values any may be returned.
   */
  method Mode(values: seq<int>) returns (r: Option<int>)
    ensures r.None? <==> values == []
    ensures r.Some? ==> r.value in values
    ensures r.Some? ==> forall x :: x in values ==> multiset(values)[x] <= multiset(values)[r.value]
  {
    if values == [] {
      return None;
    }
    var counts := CountOccurrences(values);
    var mode := MostFrequent(counts, values[0]);
    return Some(mode);
  }

  /* ---------------------------------------------------------- Median */

  /** The by-value copy that Median and Percentiles hand to std::sort, sorted by `<`. */
  method SortedCopy(values: seq<int>) returns (t: seq<int>)
    ensures |t| == |values|
    ensures Sorted(t, IntLess) && multiset(t) == multiset(values)
  {
    var a := new int[|values|](i requires 0 <= i < |values| => values[i]);
    assert a[..] == values;
    IntLessIsStrictWeakOrder();
    InsertionSorts.InsertionSort(a, IntLess);
    t := a[..];
  }

  /** Under `<` the k-th smallest value is unique. */
  lemma KthSmallestUnique(s: seq<int>, k: nat, x: int, y: int)
    requires IsKthSmallest(s, k, x, IntLess) && IsKthSmallest(s, k, y, IntLess)
    ensures x == y
  {
    if x < y {
      CountMonotone(s, NotAbove(IntLess, x), Below(IntLess, y));
    } else if y < x {
      CountMonotone(s, NotAbove(IntLess, y), Below(IntLess, x));
    }
  }

  /** The lower middle value: the ((n - 1) / 2)-th smallest. */
  ghost predicate IsLowerMiddle(s: seq<int>, x: int) {
    |s| > 0 && IsKthSmallest(s, (|s| - 1) / 2, x, IntLess)
  }

  /** The upper middle value: the (n / 2)-th smallest; the same as the lower one for odd n. */
  ghost predicate IsUpperMiddle(s: seq<int>, x: int) {
    |s| > 0 && IsKthSmallest(s, |s| / 2, x, IntLess)
  }

  /** `m` is the average of the two middle values of `s`. */
  ghost predicate IsMedian(s: seq<int>, m: real) {
    exists lo, hi :: IsLowerMiddle(s, lo) && IsUpperMiddle(s, hi) && m == (lo + hi) as real / 2.0
  }

  /**
   * The median (statistics.h:41-58): absent exactly for no values,
   * otherwise the middle value of the sorted copy for odd n and the average
   * of the two middle values for even n. The caller's values are not touched.
   */
  method Median(values: seq<int>) returns (r: Option<real>)
    ensures r.None? <==> values == []
    ensures r.Some? ==> IsMedian(values, r.value)
  {
    if values == [] {
      return None;
    }
    var sorted := SortedCopy(values);
    var size := |sorted|;
    SortedMiddles(sorted, values);
    if size % 2 == 0 {
      r := Some((sorted[size / 2 - 1] as real + sorted[size / 2] as real) / 2.0);
    } else {
      r := Some(sorted[size / 2] as real);
    }
  }

  /** The middle positions of a sorted arrangement hold the middle values. */
  lemma SortedMiddles(t: seq<int>, s: seq<int>)
    requires |t| > 0 && Sorted(t, IntLess) && multiset(t) == multiset(s)
    ensures |s| == |t|
    ensures IsLowerMiddle(s, t[(|t| - 1) / 2]) && IsUpperMiddle(s, t[|t| / 2])
  {
    assert |s| == |t| by {
      assert |multiset(t)| == |multiset(s)|;
    }
    IntLessIsStrictWeakOrder();
    SortedIsKth(t, s, (|t| - 1) / 2, IntLess);
    SortedIsKth(t, s, |t| / 2, IntLess);
  }

  /** The median of given values is a single number. */
  lemma MedianUnique(s: seq<int>, m: real, m': real)
    requires IsMedian(s, m) && IsMedian(s, m')
    ensures m == m'
  {
    var lo, hi :| IsLowerMiddle(s, lo) && IsUpperMiddle(s, hi) && m == (lo + hi) as real / 2.0;
    var lo', hi' :| IsLowerMiddle(s, lo') && IsUpperMiddle(s, hi') && m' == (lo' + hi') as real / 2.0;
    KthSmallestUnique(s, (|s| - 1) / 2, lo, lo');
    KthSmallestUnique(s, |s| / 2, hi, hi');
  }

  /** The median lies between the smallest and the largest value. */
  lemma MedianWithin(s: seq<int>, m: real)
    requires IsMedian(s, m)
    ensures s != [] && MinOf(s) as real <= m <= MaxOf(s) as real
  {
    var lo, hi :| IsLowerMiddle(s, lo) && IsUpperMiddle(s, hi) && m == (lo + hi) as real / 2.0;
    assert lo in s && hi in s by {
      assert lo in multiset(s) && hi in multiset(s);
    }
  }

  /** For an odd number of values the median is one of them. */
  lemma MedianOfOddIsValue(s: seq<int>, m: real)
    requires IsMedian(s, m) && |s| % 2 == 1
    ensures exists x :: x in s && m == x as real
  {
    var lo, hi :| IsLowerMiddle(s, lo) && IsUpperMiddle(s, hi) && m == (lo + hi) as real / 2.0;
    KthSmallestUnique(s, |s| / 2, lo, hi);
    assert lo in s by {
      assert lo in multiset(s);
    }
  }

  /* ----------------------------------------------------- Percentiles */

  /** A percentile the source accepts: 0 to 100 inclusive (statistics.h:240-244). */
  predicate ValidPercentile(p: real) {
    0.0 <= p <= 100.0
  }

  /** The real position p / 100 * (n - 1) that statistics.h:261 looks up in the n sorted values. */
  function Position(p: real, n: nat): (x: real)
    requires n > 0 && ValidPercentile(p)
    ensures 0.0 <= x <= (n - 1) as real
  {
    var fraction := p / 100.0;
    MulMonotone(0.0, fraction, (n - 1) as real);
    MulMonotone(fraction, 1.0, (n - 1) as real);
    Times(fraction, (n - 1) as real)
  }

  /** A larger percentile maps to a later position. */
  lemma PositionMonotone(p: real, q: real, n: nat)
    requires n > 0 && ValidPercentile(p) && ValidPercentile(q) && p <= q
    ensures Position(p, n) <= Position(q, n)
  {
    var fp := p / 100.0;
    var fq := q / 100.0;
    assert fp <= fq;
    MulMonotone(fp, fq, (n - 1) as real);
  }

  lemma MulMonotone(a: real, b: real, c: real)
    requires a <= b && 0.0 <= c
    ensures Times(a, c) <= Times(b, c)
  {
    assert Times(b, c) - Times(a, c) == (b - a) * c;
  }

  /** v lies between a and b, whichever of the two is larger. */
  predicate Between(v: real, a: real, b: real) {
    a <= v <= b || b <= v <= a
  }

  /** A fraction of d lies between 0 and d. */
  lemma FractionBetween(w: real, d: real)
    requires 0.0 <= w <= 1.0
    ensures Between(Times(w, d), 0.0, d)
  {
    if 0.0 <= d {
      MulMonotone(0.0, w, d);
      MulMonotone(w, 1.0, d);
    } else {
      MulMonotone(0.0, w, -d);
      MulMonotone(w, 1.0, -d);
      assert Times(w, -d) == -Times(w, d);
    }
  }

  /**
   * The value at real position x of the values t (statistics.h:262-274):
   * on a whole position, the element there; otherwise a value between the
   * elements at floor(x) and ceil(x), obtained by linear interpolation.
   */
  function Interpolate(t: seq<int>, x: real): (r: real)
    requires 0.0 <= x <= (|t| - 1) as real
    ensures x.Floor as real == x ==> r == t[x.Floor] as real
    ensures x.Floor as real < x ==> x.Floor + 1 < |t| && Between(r, t[x.Floor] as real, t[x.Floor + 1] as real)
  {
    var lowerIdx := x.Floor;
    var upperIdx := if lowerIdx as real == x then lowerIdx else lowerIdx + 1;
    if lowerIdx == upperIdx then t[lowerIdx] as real
    else
      var weight := x - lowerIdx as real;
      var lowerValue := t[lowerIdx] as real;
      var upperValue := t[upperIdx] as real;
      FractionBetween(weight, upperValue - lowerValue);
      lowerValue + Times(weight, upperValue - lowerValue)
  }

  /**
   * The percentile p of the sorted values t, one iteration of the loop at
   * statistics.h:251-275: the first element for 0, the last for 100, the
   * interpolated value at Position(p, n) otherwise. The two special cases
   * give what the interpolation would give, so one formula covers every p.
   */
  function PercentileOf(t: seq<int>, p: real): (r: real)
    requires |t| > 0 && ValidPercentile(p)
    ensures r == Interpolate(t, Position(p, |t|))
    ensures p == 0.0 ==> r == t[0] as real
    ensures p == 100.0 ==> r == t[|t| - 1] as real
  {
    if p == 0.0 then
      assert Position(p, |t|) == 0.0;
      t[0] as real
    else if p == 100.0 then
      assert Position(p, |t|) == (|t| - 1) as real;
      t[|t| - 1] as real
    else Interpolate(t, Position(p, |t|))
  }

  /** The special cases for 0 and 100 agree with interpolation: one formula covers every p. */
  lemma PercentileIsInterpolation(t: seq<int>, p: real)
    requires |t| > 0 && ValidPercentile(p)
    ensures PercentileOf(t, p) == Interpolate(t, Position(p, |t|))
  {
    if p == 0.0 {
      assert Position(p, |t|) == 0.0;
    } else if p == 100.0 {
      assert Position(p, |t|) == (|t| - 1) as real;
    }
  }

  /** An interpolated value lies between its two neighbours. */
  lemma InterpolateBetween(t: seq<int>, x: real)
    requires 0.0 <= x <= (|t| - 1) as real
    requires forall i, j :: 0 <= i <= j < |t| ==> t[i] <= t[j]
    ensures t[x.Floor] as real <= Interpolate(t, x)
    ensures x.Floor as real == x ==> Interpolate(t, x) == t[x.Floor] as real
    ensures x.Floor as real < x ==> x.Floor + 1 < |t| && Interpolate(t, x) <= t[x.Floor + 1] as real
  {
    var lowerIdx := x.Floor;
    if lowerIdx as real != x {
      var weight := x - lowerIdx as real;
      var gap := (t[lowerIdx + 1] - t[lowerIdx]) as real;
      assert 0.0 < weight < 1.0 && 0.0 <= gap;
      assert Times(weight, gap) <= gap by {
        MulMonotone(weight, 1.0, gap);
      }
      assert 0.0 <= Times(weight, gap) by {
        MulMonotone(0.0, weight, gap);
      }
    }
  }

  /** Interpolation in ascending values is monotone in the position. */
  lemma InterpolateMonotone(t: seq<int>, x: real, y: real)
    requires 0.0 <= x <= y <= (|t| - 1) as real
    requires forall i, j :: 0 <= i <= j < |t| ==> t[i] <= t[j]
    ensures Interpolate(t, x) <= Interpolate(t, y)
  {
    InterpolateBetween(t, x);
    InterpolateBetween(t, y);
    var fx := x.Floor;
    var fy := y.Floor;
    if fx == fy && fx as real < x {
      var gap := (t[fx + 1] - t[fx]) as real;
      assert 0.0 <= gap;
      MulMonotone(x - fx as real, y - fx as real, gap);
    }
  }

  /** Every percentile lies between the first and the last of the sorted values. */
  lemma PercentileWithin(t: seq<int>, p: real)
    requires |t| > 0 && ValidPercentile(p)
    requires forall i, j :: 0 <= i <= j < |t| ==> t[i] <= t[j]
    ensures t[0] as real <= PercentileOf(t, p) <= t[|t| - 1] as real
  {
    PercentileIsInterpolation(t, p);
    var x := Position(p, |t|);
    InterpolateBetween(t, x);
  }

  /** A larger percentile never gives a smaller value. */
  lemma PercentileMonotone(t: seq<int>, p: real, q: real)
    requires |t| > 0 && ValidPercentile(p) && ValidPercentile(q) && p <= q
    requires forall i, j :: 0 <= i <= j < |t| ==> t[i] <= t[j]
    ensures PercentileOf(t, p) <= PercentileOf(t, q)
  {
    PercentileIsInterpolation(t, p);
    PercentileIsInterpolation(t, q);
    PositionMonotone(p, q, |t|);
    InterpolateMonotone(t, Position(p, |t|), Position(q, |t|));
  }

  /** The 50th percentile of a sorted arrangement is the median. */
  lemma PercentileFiftyIsMedian(t: seq<int>, s: seq<int>)
    requires |t| > 0 && Sorted(t, IntLess) && multiset(t) == multiset(s)
    ensures IsMedian(s, PercentileOf(t, 50.0))
  {
    var n := |t|;
    assert |s| == n by {
      assert |multiset(t)| == |multiset(s)|;
    }
    SortedMiddles(t, s);
    var lo := t[(n - 1) / 2];
    var hi := t[n / 2];
    var x := Position(50.0, n);
    assert x == (n - 1) as real / 2.0;
    if n % 2 == 1 {
      assert x == ((n - 1) / 2) as real;
      assert PercentileOf(t, 50.0) == (lo + hi) as real / 2.0;
    } else {
      assert x == ((n - 1) / 2) as real + 0.5;
      assert x.Floor == (n - 1) / 2;
      assert PercentileOf(t, 50.0) == lo as real + Times(0.5, (hi - lo) as real);
    }
  }

  /** Sorted values start with the smallest and end with the largest. */
  lemma SortedEnds(t: seq<int>, s: seq<int>)
    requires |s| > 0 && Sorted(t, IntLess) && multiset(t) == multiset(s)
    ensures |t| == |s| && t[0] == MinOf(s) && t[|t| - 1] == MaxOf(s)
    ensures forall i, j :: 0 <= i <= j < |t| ==> t[i] <= t[j]
  {
    assert |t| == |s| by {
      assert |multiset(t)| == |multiset(s)|;
    }
    SortedAscending(t);
    assert t[0] in s && t[|t| - 1] in s by {
      assert t[0] in multiset(s) && t[|t| - 1] in multiset(s);
    }
    assert MinOf(s) in t && MaxOf(s) in t by {
      assert MinOf(s) in multiset(t) && MaxOf(s) in multiset(t);
    }
  }

  /** What the result list of Percentiles says about the values, given that each entry is PercentileOf its p. */
  lemma PercentileResults(values: seq<int>, percentiles: seq<real>, sorted: seq<int>, result: seq<real>)
    requires values != [] && Sorted(sorted, IntLess) && multiset(sorted) == multiset(values)
    requires forall i :: 0 <= i < |percentiles| ==> ValidPercentile(percentiles[i])
    requires |result| == |percentiles| && |sorted| > 0
    requires forall i :: 0 <= i < |percentiles| ==> result[i] == PercentileOf(sorted, percentiles[i])
    ensures forall i :: 0 <= i < |percentiles| ==>
      && MinOf(values) as real <= result[i] <= MaxOf(values) as real
      && (percentiles[i] == 0.0 ==> result[i] == MinOf(values) as real)
      && (percentiles[i] == 100.0 ==> result[i] == MaxOf(values) as real)
      && (percentiles[i] == 50.0 ==> IsMedian(values, result[i]))
    ensures forall i, j :: 0 <= i < |percentiles| && 0 <= j < |percentiles| && percentiles[i] <= percentiles[j] ==> result[i] <= result[j]
  {
    SortedEnds(sorted, values);
    forall i | 0 <= i < |percentiles|
      ensures MinOf(values) as real <= result[i] <= MaxOf(values) as real
      ensures percentiles[i] == 50.0 ==> IsMedian(values, result[i])
    {
      PercentileWithin(sorted, percentiles[i]);
      if percentiles[i] == 50.0 {
        PercentileFiftyIsMedian(sorted, values);
      }
    }
    forall i, j | 0 <= i < |percentiles| && 0 <= j < |percentiles| && percentiles[i] <= percentiles[j]
      ensures result[i] <= result[j]
    {
      PercentileMonotone(sorted, percentiles[i], percentiles[j]);
    }
  }

  /**
   * Percentiles (statistics.h:232-278): absent when there are no values, no
   * percentiles, or a percentile outside [0, 100]; otherwise one value per
   * percentile, the smallest value for 0, the largest for 100, the median
   * for 50, all within the range of the values and in the order of the
   * percentiles.
   */
  method Percentiles(values: seq<int>, percentiles: seq<real>) returns (r: Option<seq<real>>)
    ensures r.None? <==> values == [] || percentiles == [] || exists i :: 0 <= i < |percentiles| && !ValidPercentile(percentiles[i])
    ensures r.Some? ==> values != [] && |r.value| == |percentiles|
    ensures r.Some? ==> forall i :: 0 <= i < |percentiles| ==>
      && MinOf(values) as real <= r.value[i] <= MaxOf(values) as real
      && (percentiles[i] == 0.0 ==> r.value[i] == MinOf(values) as real)
      && (percentiles[i] == 100.0 ==> r.value[i] == MaxOf(values) as real)
      && (percentiles[i] == 50.0 ==> IsMedian(values, r.value[i]))
    ensures r.Some? ==> forall i, j :: 0 <= i < |percentiles| && 0 <= j < |percentiles| && percentiles[i] <= percentiles[j] ==> r.value[i] <= r.value[j]
  {
    if values == [] || percentiles == [] {
      return None;
    }
    var k := 0;
    while k < |percentiles|
      invariant 0 <= k <= |percentiles|
      invariant forall i :: 0 <= i < k ==> ValidPercentile(percentiles[i])
    {
      var p := percentiles[k];
      if p < 0.0 || p > 100.0 {
        return None;
      }
      k := k + 1;
    }
    var sorted := SortedCopy(values);
    var n := |sorted|;
    var result: seq<real> := [];
    k := 0;
    while k < |percentiles|
      invariant 0 <= k <= |percentiles| && |result| == k
      invariant forall i :: 0 <= i < k ==> result[i] == PercentileOf(sorted, percentiles[i])
    {
      var p := percentiles[k];
      var value: real;
      if p == 0.0 {
        value := sorted[0] as real;
      } else if p == 100.0 {
        value := sorted[n - 1] as real;
      } else {
        var index := Times(p / 100.0, (n - 1) as real);
        assert index == Position(p, n);
        var lowerIdx := index.Floor;
        var upperIdx := if lowerIdx as real == index then lowerIdx else lowerIdx + 1;
        if lowerIdx == upperIdx {
          value := sorted[lowerIdx] as real;
        } else {
          var weight := index - lowerIdx as real;
          var lowerValue := sorted[lowerIdx] as real;
          var upperValue := sorted[upperIdx] as real;
          value := lowerValue + Times(weight, upperValue - lowerValue);
        }
      }
      result := result + [value];
      k := k + 1;
    }
    PercentileResults(values, percentiles, sorted, result);
    r := Some(result);
  }
}
