/**
 * CountingSort and RadixSort of src/algorithms/sorting.cc. Both distribute
 * the elements into buckets by a small key (the value itself, or one decimal
 * digit of it): count each key, turn the counts into end positions, fill an
 * output buffer from the back, and copy it over the data.
 *
 * The specification of one such pass is the concatenation of the buckets in
 * key order, each bucket keeping the input order of its elements.
 */
module CountingSorts {
  import opened IntSeqs

  /** The elements of `s` whose key is `v`, in their order in `s`. */
  function Bucket(s: seq<int>, key: int -> int, v: int): (b: seq<int>)
    ensures |b| <= |s|
  {
    if s == [] then []
    else (if key(s[0]) == v then [s[0]] else []) + Bucket(s[1..], key, v)
  }

  /** Buckets 0 to v, one after the other. */
  function BucketsUpTo(s: seq<int>, key: int -> int, v: int): seq<int>
    decreases v
  {
    if v < 0 then [] else BucketsUpTo(s, key, v - 1) + Bucket(s, key, v)
  }

  /** Non-decreasing order. */
  predicate Ascending(s: seq<int>) {
    forall i, j :: 0 <= i < j < |s| ==> s[i] <= s[j]
  }

  /* ------------------------------------------------------ Bucket lemmas */

  lemma {:induction false} BucketAppend(a: seq<int>, b: seq<int>, key: int -> int, v: int)
    ensures Bucket(a + b, key, v) == Bucket(a, key, v) + Bucket(b, key, v)
  {
    if a == [] {
      assert a + b == b;
    } else {
      var head := if key(a[0]) == v then [a[0]] else [];
      BucketAppend(a[1..], b, key, v);
      assert (a + b)[0] == a[0] && (a + b)[1..] == a[1..] + b;
      calc {
        Bucket(a + b, key, v);
        head + Bucket(a[1..] + b, key, v);
        head + (Bucket(a[1..], key, v) + Bucket(b, key, v));
        (head + Bucket(a[1..], key, v)) + Bucket(b, key, v);
        Bucket(a, key, v) + Bucket(b, key, v);
      }
    }
  }

  /** A bucket holds exactly the elements of `s` with that key, as often as `s` does. */
  lemma {:induction false} BucketMultiset(s: seq<int>, key: int -> int, v: int, x: int)
    ensures multiset(Bucket(s, key, v))[x] == if key(x) == v then multiset(s)[x] else 0
  {
    if s != [] {
      BucketMultiset(s[1..], key, v, x);
      assert s == [s[0]] + s[1..];
    }
  }

  /** Buckets 0 to v hold exactly the elements of `s` with a key in [0, v]. */
  lemma {:induction false} BucketsMultiset(s: seq<int>, key: int -> int, v: int, x: int)
    ensures multiset(BucketsUpTo(s, key, v))[x] == if 0 <= key(x) <= v then multiset(s)[x] else 0
    decreases v
  {
    if v >= 0 {
      BucketsMultiset(s, key, v - 1, x);
      BucketMultiset(s, key, v, x);
    }
  }

  /** When every key is in [0, m], the buckets 0 to m are a permutation of the input. */
  lemma BucketsPermutation(s: seq<int>, key: int -> int, m: int)
    requires forall i :: 0 <= i < |s| ==> 0 <= key(s[i]) <= m
    ensures multiset(BucketsUpTo(s, key, m)) == multiset(s)
    ensures |BucketsUpTo(s, key, m)| == |s|
  {
    forall x
      ensures multiset(BucketsUpTo(s, key, m))[x] == multiset(s)[x]
    {
      BucketsMultiset(s, key, m, x);
      if x in s {
        var i :| 0 <= i < |s| && s[i] == x;
      }
    }
    assert multiset(BucketsUpTo(s, key, m)) == multiset(s);
    assert |multiset(BucketsUpTo(s, key, m))| == |multiset(s)|;
  }

  lemma {:induction false} BucketMembers(s: seq<int>, key: int -> int, v: int, x: int)
    requires x in Bucket(s, key, v)
    ensures key(x) == v && x in s
  {
    BucketMultiset(s, key, v, x);
  }

  /** Buckets 0 to v hold keys in [0, v], in non-decreasing key order. */
  lemma {:induction false} BucketsKeyOrder(s: seq<int>, key: int -> int, v: int)
    ensures forall x :: x in BucketsUpTo(s, key, v) ==> 0 <= key(x) <= v
    ensures forall i, j :: 0 <= i < j < |BucketsUpTo(s, key, v)| ==>
      key(BucketsUpTo(s, key, v)[i]) <= key(BucketsUpTo(s, key, v)[j])
    decreases v
  {
    if v >= 0 {
      BucketsKeyOrder(s, key, v - 1);
      var front, b := BucketsUpTo(s, key, v - 1), Bucket(s, key, v);
      var all := front + b;
      forall x | x in b
        ensures key(x) == v
      {
        BucketMembers(s, key, v, x);
      }
      forall i, j | 0 <= i < j < |all|
        ensures key(all[i]) <= key(all[j])
      {
        if j < |front| {
          assert all[i] == front[i] && all[j] == front[j];
        } else if i < |front| {
          assert all[i] == front[i] && all[j] == b[j - |front|];
          assert front[i] in front && b[j - |front|] in b;
        } else {
          assert all[i] == b[i - |front|] && all[j] == b[j - |front|];
          assert b[i - |front|] in b && b[j - |front|] in b;
        }
      }
      forall x | x in all
        ensures 0 <= key(x) <= v
      {
        assert x in front || x in b;
      }
    }
  }

  /** The elements of `s` with a key in [0, v]: the end position of bucket v. */
  function End(s: seq<int>, key: int -> int, v: int): nat {
    |BucketsUpTo(s, key, v)|
  }

  lemma {:induction false} EndMonotone(s: seq<int>, key: int -> int, u: int, v: int)
    requires u <= v
    ensures End(s, key, u) <= End(s, key, v)
    decreases v - u
  {
    if u < v {
      EndMonotone(s, key, u, v - 1);
    }
  }

  lemma BucketSnoc(s: seq<int>, x: int, key: int -> int, v: int)
    ensures Bucket(s + [x], key, v) == Bucket(s, key, v) + (if key(x) == v then [x] else [])
  {
    BucketAppend(s, [x], key, v);
    assert [x][1..] == [];
  }

  lemma BucketFrom(s: seq<int>, i: int, key: int -> int, v: int)
    requires 0 <= i < |s|
    ensures Bucket(s[i..], key, v) == (if key(s[i]) == v then [s[i]] else []) + Bucket(s[i + 1..], key, v)
  {
    assert s[i..][0] == s[i] && s[i..][1..] == s[i + 1..];
  }

  /* ------------------------------------------- the backward filling loop */

  /*
   * The fill keeps two ghost values beside the buffer: ends[v] and ends[v+1]
   * bound the region of bucket v, and bs[v] is what the region's filled part
   * holds. Filled relates them to the buffer and the counters; Abstracts
   * relates them to the bucket specification of the input.
   */

  /** out[from..hi] holds b, and from has not gone below the region's start lo. */
  ghost predicate Region(out: seq<int>, from: int, lo: int, hi: int, b: seq<int>) {
    0 <= lo <= from && from + |b| == hi && hi <= |out| && out[from..hi] == b
  }

  ghost predicate Filled(count: seq<int>, out: seq<int>, ends: seq<int>, bs: seq<seq<int>>) {
    && |ends| == |count| + 1
    && |bs| == |count|
    && forall v :: 0 <= v < |count| ==> Region(out, count[v], ends[v], ends[v + 1], bs[v])
  }

  /** After the elements s[from..] have been placed, bs[v] is their bucket v. */
  ghost predicate Abstracts(s: seq<int>, key: int -> int, from: int, ends: seq<int>, bs: seq<seq<int>>) {
    && 0 <= from <= |s|
    && |ends| == |bs| + 1
    && ends[0] == 0
    && forall v :: 0 <= v < |bs| ==> ends[v + 1] == End(s, key, v) && bs[v] == Bucket(s[from..], key, v)
  }

  lemma RegionUnchanged(out: seq<int>, from: int, lo: int, hi: int, b: seq<int>, c: int, x: int)
    requires Region(out, from, lo, hi, b) && 0 <= c < |out| && (c < from || hi <= c)
    ensures Region(out[c := x], from, lo, hi, b)
  {
    assert out[c := x][from..hi] == out[from..hi];
  }

  lemma RegionExtend(out: seq<int>, from: int, lo: int, hi: int, b: seq<int>, x: int)
    requires Region(out, from, lo, hi, b) && lo <= from - 1
    ensures Region(out[from - 1 := x], from - 1, lo, hi, [x] + b)
  {
    assert out[from - 1 := x][from - 1..hi] == [x] + out[from..hi];
  }

  /** Region bounds never decrease. */
  lemma {:induction false} EndsMonotone(count: seq<int>, out: seq<int>, ends: seq<int>, bs: seq<seq<int>>, u: int, w: int)
    requires Filled(count, out, ends, bs) && 0 <= u <= w <= |count|
    ensures ends[u] <= ends[w]
    decreases w - u
  {
    if u < w {
      assert Region(out, count[u], ends[u], ends[u + 1], bs[u]);
      EndsMonotone(count, out, ends, bs, u + 1, w);
    }
  }

  /** Placing x just before bucket k's counter keeps every region filled. */
  lemma FilledStep(count: seq<int>, out: seq<int>, ends: seq<int>, bs: seq<seq<int>>, k: int, x: int)
    requires Filled(count, out, ends, bs) && 0 <= k < |count| && ends[k] <= count[k] - 1
    ensures 0 <= count[k] - 1 < |out|
    ensures Filled(count[k := count[k] - 1], out[count[k] - 1 := x], ends, bs[k := [x] + bs[k]])
  {
    var c := count[k] - 1;
    assert Region(out, count[k], ends[k], ends[k + 1], bs[k]);
    var count', out', bs' := count[k := c], out[c := x], bs[k := [x] + bs[k]];
    forall v | 0 <= v < |count'|
      ensures Region(out', count'[v], ends[v], ends[v + 1], bs'[v])
    {
      assert Region(out, count[v], ends[v], ends[v + 1], bs[v]);
      if v == k {
        RegionExtend(out, count[k], ends[k], ends[k + 1], bs[k], x);
      } else {
        if v < k {
          EndsMonotone(count, out, ends, bs, v + 1, k);
        } else {
          EndsMonotone(count, out, ends, bs, k + 1, v);
        }
        RegionUnchanged(out, count[v], ends[v], ends[v + 1], bs[v], c, x);
      }
    }
  }

  /** Prepending s[i] to its bucket keeps the abstraction, one element earlier. */
  lemma AbstractsStep(s: seq<int>, key: int -> int, i: int, ends: seq<int>, bs: seq<seq<int>>)
    requires 0 <= i < |s| && Abstracts(s, key, i + 1, ends, bs) && 0 <= key(s[i]) < |bs|
    ensures Abstracts(s, key, i, ends, bs[key(s[i]) := [s[i]] + bs[key(s[i])]])
  {
    var k := key(s[i]);
    var bs' := bs[k := [s[i]] + bs[k]];
    forall v | 0 <= v < |bs|
      ensures bs'[v] == Bucket(s[i..], key, v)
    {
      BucketFrom(s, i, key, v);
    }
  }

  /** Bucket k's region has a free slot for s[i]. */
  lemma RoomFor(s: seq<int>, key: int -> int, i: int, count: seq<int>, out: seq<int>, ends: seq<int>, bs: seq<seq<int>>)
    requires 0 <= i < |s| && Abstracts(s, key, i + 1, ends, bs) && Filled(count, out, ends, bs)
    requires 0 <= key(s[i]) < |bs|
    ensures ends[key(s[i])] <= count[key(s[i])] - 1
  {
    var k := key(s[i]);
    assert Region(out, count[k], ends[k], ends[k + 1], bs[k]);
    SuffixBucketShorter(s, i, key);
    EndStep(s, key, k);
    if k > 0 {
      assert ends[k] == End(s, key, k - 1);
    }
  }

  lemma EndStep(s: seq<int>, key: int -> int, v: int)
    requires v >= 0
    ensures End(s, key, v) == End(s, key, v - 1) + |Bucket(s, key, v)|
  {
  }

  /** s[i] is in its own bucket, ahead of the elements of s[i+1..] with its key. */
  lemma SuffixBucketShorter(s: seq<int>, i: int, key: int -> int)
    requires 0 <= i < |s|
    ensures |Bucket(s[i + 1..], key, key(s[i]))| + 1 <= |Bucket(s, key, key(s[i]))|
  {
    var k := key(s[i]);
    BucketFrom(s, i, key, k);
    BucketAppend(s[..i], s[i..], key, k);
    assert s[..i] + s[i..] == s;
  }

  /** Counters at the bucket ends and nothing placed yet. */
  lemma FillInit(s: seq<int>, key: int -> int, m: nat, count: seq<int>, out: seq<int>)
    requires |count| == m + 1 && |out| == |s| && End(s, key, m) == |s|
    requires forall v :: 0 <= v <= m ==> count[v] == End(s, key, v)
    ensures Filled(count, out, [0] + count, seq(m + 1, _ => []))
    ensures Abstracts(s, key, |s|, [0] + count, seq(m + 1, _ => []))
  {
    var ends, bs := [0] + count, seq(m + 1, _ => []);
    assert s[|s|..] == [];
    forall v | 0 <= v <= m
      ensures Region(out, count[v], ends[v], ends[v + 1], bs[v])
    {
      EndMonotone(s, key, v, m);
      if v > 0 {
        EndMonotone(s, key, v - 1, v);
      }
    }
  }

  /** With every element placed, the buffer is the bucket concatenation. */
  lemma {:induction false} Assemble(s: seq<int>, key: int -> int, v: int, count: seq<int>, out: seq<int>,
                                    ends: seq<int>, bs: seq<seq<int>>)
    requires Filled(count, out, ends, bs) && Abstracts(s, key, 0, ends, bs) && -1 <= v < |bs|
    ensures 0 <= ends[v + 1] <= |out|
    ensures out[..ends[v + 1]] == BucketsUpTo(s, key, v)
    decreases v
  {
    if v >= 0 {
      Assemble(s, key, v - 1, count, out, ends, bs);
      FullRegion(s, key, v, count, out, ends, bs);
      assert out[..ends[v + 1]] == out[..ends[v]] + out[ends[v]..ends[v + 1]];
    }
  }

  /** Once every element is placed, bucket v fills its whole region. */
  lemma FullRegion(s: seq<int>, key: int -> int, v: int, count: seq<int>, out: seq<int>,
                   ends: seq<int>, bs: seq<seq<int>>)
    requires Filled(count, out, ends, bs) && Abstracts(s, key, 0, ends, bs) && 0 <= v < |bs|
    ensures 0 <= ends[v] <= ends[v + 1] <= |out|
    ensures out[ends[v]..ends[v + 1]] == Bucket(s, key, v)
  {
    assert Region(out, count[v], ends[v], ends[v + 1], bs[v]);
    assert s[0..] == s;
    EndStep(s, key, v);
    if v > 0 {
      assert ends[v] == End(s, key, v - 1);
    }
  }

  /* --------------------------------------------------- one counting pass */

  /** Count how many elements fall into each bucket (sorting.cc:23-25, 62-64). */
  method CountKeys(s: seq<int>, key: int -> int, m: nat) returns (count: array<int>)
    requires forall i :: 0 <= i < |s| ==> 0 <= key(s[i]) <= m
    ensures fresh(count) && count.Length == m + 1
    ensures forall v :: 0 <= v <= m ==> count[v] == |Bucket(s, key, v)|
  {
    count := new int[m + 1](_ => 0);
    for i := 0 to |s|
      invariant forall v :: 0 <= v <= m ==> count[v] == |Bucket(s[..i], key, v)|
    {
      forall v | 0 <= v <= m {
        BucketSnoc(s[..i], s[i], key, v);
      }
      assert s[..i + 1] == s[..i] + [s[i]];
      count[key(s[i])] := count[key(s[i])] + 1;
    }
    assert s[..|s|] == s;
  }

  /** Running sums turn the counts into bucket end positions (sorting.cc:29-31, 68-70). */
  method PrefixSums(count: array<int>, ghost s: seq<int>, key: int -> int, m: nat)
    requires count.Length == m + 1
    requires forall v :: 0 <= v <= m ==> count[v] == |Bucket(s, key, v)|
    modifies count
    ensures forall v :: 0 <= v <= m ==> count[v] == End(s, key, v)
  {
    for i := 1 to m + 1
      invariant forall v :: 0 <= v < i ==> count[v] == End(s, key, v)
      invariant forall v :: i <= v <= m ==> count[v] == |Bucket(s, key, v)|
    {
      count[i] := count[i] + count[i - 1];
    }
  }

  /**
   * The backward fill (sorting.cc:34-38, 73-76): each element, from the last
   * to the first, goes to the slot just before its bucket's counter.
   */
  method FillBackward(s: seq<int>, key: int -> int, m: nat, count: array<int>) returns (output: array<int>)
    requires forall i :: 0 <= i < |s| ==> 0 <= key(s[i]) <= m
    requires count.Length == m + 1 && End(s, key, m) == |s|
    requires forall v :: 0 <= v <= m ==> count[v] == End(s, key, v)
    modifies count
    ensures fresh(output) && output.Length == |s|
    ensures output[..] == BucketsUpTo(s, key, m)
  {
    output := new int[|s|];
    ghost var ends, bs := [0] + count[..], seq(m + 1, _ => []);
    FillInit(s, key, m, count[..], output[..]);
    var i := |s| - 1;
    while i >= 0
      invariant -1 <= i < |s| && count.Length == m + 1 && output.Length == |s|
      invariant Filled(count[..], output[..], ends, bs)
      invariant Abstracts(s, key, i + 1, ends, bs)
      decreases i
    {
      bs := PlaceNext(s, key, i, output, count, ends, bs);
      i := i - 1;
    }
    Assemble(s, key, m, count[..], output[..], ends, bs);
    assert ends[m + 1] == |s|;
  }

  /** Store s[i] just before its bucket's counter and move the counter back. */
  method PlaceNext(s: seq<int>, key: int -> int, i: int, output: array<int>, count: array<int>,
                   ghost ends: seq<int>, ghost bs: seq<seq<int>>) returns (ghost bs': seq<seq<int>>)
    requires output != count && 0 <= i < |s| && 0 <= key(s[i]) < count.Length
    requires Filled(count[..], output[..], ends, bs) && Abstracts(s, key, i + 1, ends, bs)
    modifies output, count
    ensures Filled(count[..], output[..], ends, bs') && Abstracts(s, key, i, ends, bs')
  {
    ghost var cs, os := count[..], output[..];
    var k := key(s[i]);
    RoomFor(s, key, i, cs, os, ends, bs);
    FilledStep(cs, os, ends, bs, k, s[i]);
    AbstractsStep(s, key, i, ends, bs);
    bs' := bs[k := [s[i]] + bs[k]];
    output[count[k] - 1] := s[i];
    assert output[..] == os[cs[k] - 1 := s[i]];
    count[k] := count[k] - 1;
    assert count[..] == cs[k := cs[k] - 1];
  }

  /**
   * Counting, running sums and the backward fill into a fresh buffer
   * (sorting.cc:20-38, 58-76); the buffer is the stable bucket concatenation.
   */
  method Distribute(s: seq<int>, key: int -> int, m: nat) returns (output: array<int>)
    requires forall i :: 0 <= i < |s| ==> 0 <= key(s[i]) <= m
    ensures fresh(output) && output.Length == |s|
    ensures output[..] == BucketsUpTo(s, key, m)
  {
    var count := CountKeys(s, key, m);
    PrefixSums(count, s, key, m);
    BucketsPermutation(s, key, m);
    output := FillBackward(s, key, m, count);
  }

  /** One counting pass over the data by `key`, copied back in place (sorting.cc:19-43, 57-81). */
  method CountingPass(a: array<int>, key: int -> int, m: nat)
    requires forall i :: 0 <= i < a.Length ==> 0 <= key(a[i]) <= m
    modifies a
    ensures a[..] == BucketsUpTo(old(a[..]), key, m)
  {
    var output := Distribute(a[..], key, m);
    ghost var result := output[..];
    for i := 0 to a.Length
      invariant output[..] == result
      invariant a[..i] == result[..i]
    {
      a[i] := output[i];
    }
  }

  /* ------------------------------------------------------ CountingSort */

  /** The default value of CountingSort's max_value argument (sorting.h:401). */
  const DefaultMaxValue: int := -1

  /**
   * CountingSort (sorting.cc:13-44): with at least two elements, every element
   * must be a valid index into the count buffer of max_value + 1 entries.
   * That also rules out max_value <= -2, for which the source throws while
   * sizing the buffer, and max_value = -1, for which the buffer is empty.
   */
  method CountingSort(a: array<int>, maxValue: int)
    requires a.Length > 1 ==> forall i :: 0 <= i < a.Length ==> 0 <= a[i] <= maxValue
    modifies a
    ensures Ascending(a[..])
    ensures multiset(a[..]) == multiset(old(a[..]))
    ensures a.Length > 1 ==> a[..] == BucketsUpTo(old(a[..]), x => x, maxValue)
  {
    if a.Length <= 1 {
      return;
    }
    assert 0 <= a[0] <= maxValue;
    var identity := (x: int) => x;
    ghost var s := a[..];
    CountingPass(a, identity, maxValue);
    BucketsPermutation(s, identity, maxValue);
    BucketsKeyOrder(s, identity, maxValue);
  }

  /**
   * With the declared default max_value of -1 the count buffer is empty, so no
   * input of two or more elements meets CountingSort's requirement: the first
   * counting step indexes outside the buffer.
   */
  lemma DefaultMaxValueRejectsAll(s: seq<int>)
    requires |s| > 1
    ensures DefaultMaxValue + 1 == 0
    ensures !(forall i :: 0 <= i < |s| ==> 0 <= s[i] <= DefaultMaxValue)
  {
    assert !(0 <= s[0] <= DefaultMaxValue);
  }

  /**
   * CountingSort with the bound computed from the data, as the declaration's
   * documentation promises for an omitted max_value.
   */
  method CountingSortDefault(a: array<int>)
    requires forall i :: 0 <= i < a.Length ==> 0 <= a[i]
    modifies a
    ensures Ascending(a[..])
    ensures multiset(a[..]) == multiset(old(a[..]))
  {
    if a.Length <= 1 {
      return;
    }
    var maxValue := MaxOf(a[..]);
    CountingSort(a, maxValue);
  }

  /* --------------------------------------------------------- RadixSort */

  /** Order of `s` by the measure `f`. */
  predicate SortedBy(s: seq<int>, f: int -> int) {
    forall i, j :: 0 <= i < j < |s| ==> f(s[i]) <= f(s[j])
  }

  /** Order by the remainder modulo e. */
  predicate ModSorted(s: seq<int>, e: int)
    requires e > 0
  {
    forall i, j :: 0 <= i < j < |s| ==> s[i] % e <= s[j] % e
  }

  /** A bucket keeps every order its input had: the pass is stable. */
  lemma {:induction false} BucketKeepsOrder(s: seq<int>, key: int -> int, v: int, f: int -> int)
    requires SortedBy(s, f)
    ensures SortedBy(Bucket(s, key, v), f)
  {
    if s != [] {
      var rest := s[1..];
      assert SortedBy(rest, f) by {
        forall i, j | 0 <= i < j < |rest|
          ensures f(rest[i]) <= f(rest[j])
        {
          assert rest[i] == s[i + 1] && rest[j] == s[j + 1];
        }
      }
      BucketKeepsOrder(rest, key, v, f);
      var tail := Bucket(rest, key, v);
      if key(s[0]) == v {
        forall j | 0 <= j < |tail|
          ensures f(s[0]) <= f(tail[j])
        {
          BucketMembers(rest, key, v, tail[j]);
          var t :| 0 <= t < |rest| && rest[t] == tail[j];
          assert s[t + 1] == rest[t];
        }
        var b := [s[0]] + tail;
        forall i, j | 0 <= i < j < |b|
          ensures f(b[i]) <= f(b[j])
        {
          assert b[j] == tail[j - 1];
          if i > 0 {
            assert b[i] == tail[i - 1];
          }
        }
      } else {
        assert Bucket(s, key, v) == [] + tail;
      }
    }
  }

  /**
   * A pass by `key` over data ordered by `low` leaves it ordered by key first
   * and by `low` among equal keys.
   */
  lemma {:induction false} BucketsLexOrder(s: seq<int>, key: int -> int, m: int, low: int -> int)
    requires SortedBy(s, low)
    ensures forall i, j :: 0 <= i < j < |BucketsUpTo(s, key, m)| ==>
      var r := BucketsUpTo(s, key, m);
      key(r[i]) < key(r[j]) || (key(r[i]) == key(r[j]) && low(r[i]) <= low(r[j]))
    decreases m
  {
    if m >= 0 {
      BucketsLexOrder(s, key, m - 1, low);
      BucketsKeyOrder(s, key, m - 1);
      BucketKeepsOrder(s, key, m, low);
      var front, b := BucketsUpTo(s, key, m - 1), Bucket(s, key, m);
      var all := front + b;
      forall x | x in b
        ensures key(x) == m
      {
        BucketMembers(s, key, m, x);
      }
      forall i, j | 0 <= i < j < |all|
        ensures key(all[i]) < key(all[j]) || (key(all[i]) == key(all[j]) && low(all[i]) <= low(all[j]))
      {
        if j < |front| {
          assert all[i] == front[i] && all[j] == front[j];
        } else if i < |front| {
          assert all[i] == front[i] && all[j] == b[j - |front|];
          assert front[i] in front && b[j - |front|] in b;
        } else {
          assert all[i] == b[i - |front|] && all[j] == b[j - |front|];
          assert b[i - |front|] in b && b[j - |front|] in b;
        }
      }
    }
  }

  lemma {:induction false} MulAtLeast(k: int, n: int)
    requires k >= 1 && n > 0
    ensures k * n >= n
    decreases k
  {
    if k > 1 {
      MulAtLeast(k - 1, n);
      assert k * n == (k - 1) * n + n;
    }
  }

  lemma MulSub(a: int, b: int, n: int)
    ensures a * n - b * n == (a - b) * n
  {
  }

  lemma DivModUnique(x: int, n: int, q: int, r: int)
    requires n > 0 && 0 <= r < n && x == q * n + r
    ensures x / n == q && x % n == r
  {
    var q', r' := x / n, x % n;
    assert x == q' * n + r';
    if q' < q {
      MulSub(q, q', n);
      MulAtLeast(q - q', n);
    } else if q' > q {
      MulSub(q', q, n);
      MulAtLeast(q' - q, n);
    }
  }

  /** The remainder by 10e is the digit at e followed by the remainder by e. */
  lemma ModSplit(x: int, e: int)
    requires x >= 0 && e > 0
    ensures x % (10 * e) == ((x / e) % 10) * e + x % e
  {
    var q, r := x / e, x % e;
    var d, big := q % 10, q / 10;
    assert x == q * e + r;
    assert q == big * 10 + d;
    assert q * e == big * (10 * e) + d * e;
    assert x == big * (10 * e) + (d * e + r);
    assert d * e <= 9 * e by {
      MulSub(9, d, e);
      if d < 9 {
        MulAtLeast(9 - d, e);
      }
    }
    DivModUnique(x, 10 * e, big, d * e + r);
  }

  /** Digit-then-remainder order on non-negative numbers is remainder-by-10e order. */
  lemma DigitOrder(x: int, y: int, e: int)
    requires x >= 0 && y >= 0 && e > 0
    requires (x / e) % 10 < (y / e) % 10 || ((x / e) % 10 == (y / e) % 10 && x % e <= y % e)
    ensures x % (10 * e) <= y % (10 * e)
  {
    ModSplit(x, e);
    ModSplit(y, e);
    var dx, dy := (x / e) % 10, (y / e) % 10;
    var rx, ry := x % e, y % e;
    if dx < dy {
      MulSub(dy, dx, e);
      MulAtLeast(dy - dx, e);
      assert dx * e + rx < dy * e + ry;
    }
  }

  /**
   * One RadixSort pass on the digit at `e` (sorting.cc:57-81) turns data
   * ordered by the remainder modulo e into data ordered modulo 10e.
   */
  lemma RadixPass(s: seq<int>, e: int, key: int -> int, lastDigit: int, r: seq<int>)
    requires e > 0 && lastDigit == 9 && forall x :: key(x) == (x / e) % 10
    requires forall i :: 0 <= i < |s| ==> s[i] >= 0
    requires ModSorted(s, e)
    requires r == BucketsUpTo(s, key, lastDigit)
    ensures multiset(r) == multiset(s)
    ensures ModSorted(r, 10 * e)
  {
    var low := (x: int) => x % e;
    BucketsLexOrder(s, key, lastDigit, low);
    BucketsPermutation(s, key, lastDigit);
    forall i, j | 0 <= i < j < |r|
      ensures r[i] % (10 * e) <= r[j] % (10 * e)
    {
      assert r[i] in multiset(s) && r[j] in multiset(s);
      DigitOrder(r[i], r[j], e);
    }
  }

  lemma DivAtLeastOne(x: int, e: int)
    requires e > 0 && x / e > 0
    ensures x >= e
  {
    assert x == (x / e) * e + x % e;
    assert (x / e) * e >= e;
  }

  lemma DivZero(x: int, e: int)
    requires e > 0 && 0 <= x && x / e <= 0
    ensures x < e && x % e == x
  {
    assert x == (x / e) * e + x % e;
    assert x / e == 0;
  }

  /** Every element lies in [lo, hi]. */
  predicate Within(s: seq<int>, lo: int, hi: int) {
    forall i :: 0 <= i < |s| ==> lo <= s[i] <= hi
  }

  /** Two sequences with the same elements share every bound. */
  lemma SameBounds(s: seq<int>, t: seq<int>, lo: int, hi: int)
    requires multiset(s) == multiset(t) && Within(s, lo, hi)
    ensures Within(t, lo, hi)
  {
    forall i | 0 <= i < |t|
      ensures lo <= t[i] <= hi
    {
      assert t[i] in multiset(s);
    }
  }

  /**
   * One iteration of RadixSort's loop (sorting.cc:57-81): a counting pass on
   * the decimal digit at `exp`.
   */
  method DigitPass(a: array<int>, exp: int)
    requires exp > 0
    requires forall i :: 0 <= i < a.Length ==> 0 <= a[i]
    requires ModSorted(a[..], exp)
    modifies a
    ensures multiset(a[..]) == multiset(old(a[..]))
    ensures ModSorted(a[..], 10 * exp)
  {
    ghost var s := a[..];
    var key := (x: int) => (x / exp) % 10;
    var lastDigit := 9;
    assert forall x :: 0 <= key(x) <= lastDigit;
    CountingPass(a, key, lastDigit);
    RadixPass(s, exp, key, lastDigit, a[..]);
  }

  /** Once exp exceeds every element, order modulo exp is plain order. */
  lemma FinalOrder(t: seq<int>, maxNum: int, exp: int)
    requires exp > 0 && maxNum / exp <= 0
    requires Within(t, 0, maxNum) && ModSorted(t, exp)
    ensures Ascending(t)
  {
    if |t| > 0 {
      assert 0 <= t[0] <= maxNum;
      DivZero(maxNum, exp);
      forall i | 0 <= i < |t|
        ensures t[i] % exp == t[i]
      {
        DivZero(t[i], exp);
      }
    }
  }

  /**
   * RadixSort (sorting.cc:47-83): one counting pass per decimal digit of the
   * largest element, least significant first. A negative element is only
   * allowed when no element is positive; then no pass runs and the data
   * stays as it is. Beside a positive element, a negative one whose digit
   * is not 0 under C++'s truncating `/` and `%` indexes outside the count
   * buffer ([-5, 1]); one whose visited digits are all 0 is accepted by the
   * source but need not end sorted ([-10, 5, -20] ends [-10, -20, 5]).
   * The requires excludes both kinds.
   */
  method RadixSort(a: array<int>)
    requires forall i, j :: 0 <= i < a.Length && 0 <= j < a.Length && a[i] > 0 ==> a[j] >= 0
    modifies a
    ensures multiset(a[..]) == multiset(old(a[..]))
    ensures (forall i :: 0 <= i < a.Length ==> old(a[i]) >= 0) ==> Ascending(a[..])
    ensures (forall i :: 0 <= i < a.Length ==> old(a[i]) <= 0) ==> a[..] == old(a[..])
  {
    if a.Length == 0 {
      return;
    }
    ghost var s0 := a[..];
    var maxNum := MaxOf(a[..]);
    ghost var lo := if maxNum > 0 then 0 else MinOf(s0);
    assert Within(s0, lo, maxNum) by {
      if maxNum > 0 {
        var i0 :| 0 <= i0 < |s0| && s0[i0] == maxNum;
      }
    }
    var exp := 1;
    while maxNum / exp > 0
      invariant exp > 0
      invariant multiset(a[..]) == multiset(s0)
      invariant maxNum <= 0 ==> a[..] == s0
      invariant Within(a[..], lo, maxNum)
      invariant ModSorted(a[..], exp)
      decreases maxNum - exp
    {
      DivAtLeastOne(maxNum, exp);
      ghost var s := a[..];
      assert lo == 0;
      DigitPass(a, exp);
      SameBounds(s, a[..], lo, maxNum);
      exp := exp * 10;
    }
    if forall i :: 0 <= i < a.Length ==> s0[i] >= 0 {
      assert lo >= 0 by {
        if maxNum <= 0 {
          assert MinOf(s0) in s0;
        }
      }
      FinalOrder(a[..], maxNum, exp);
    }
  }

  /** A 32-bit signed int as the result of two's-complement wrap-around. */
  function Int32(x: int): (r: int)
    ensures -0x8000_0000 <= r < 0x8000_0000
    ensures (x - r) % 0x1_0000_0000 == 0
  {
    (x + 0x8000_0000) % 0x1_0000_0000 - 0x8000_0000
  }

  /** RadixSort's `exp *= 10` on a 32-bit int (sorting.cc:56). */
  function NextExpInt32(exp: int): int {
    Int32(exp * 10)
  }

  /**
   * An input holding 1000000000, a valid int, still passes the loop guard at
   * exp = 10^9, so the update to 10^10 does not fit in an int.
   */
  lemma RadixExpOverflows()
    ensures var maxNum, exp := 1_000_000_000, 1_000_000_000;
      maxNum < 0x8000_0000 && maxNum / exp > 0
      && exp * 10 >= 0x8000_0000 && NextExpInt32(exp) != exp * 10
  {
    assert NextExpInt32(1_000_000_000) == 1_410_065_408;
  }
}
