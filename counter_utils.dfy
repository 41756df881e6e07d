/**
 * CounterTp of src/utils/counter_utils.h: counts elements by a key drawn
 * from each element, in an ordered map from key to count.
 *
 * Keys are integers, so the ordered map's key order is the integer order.
 */
module CounterUtils {
  import opened IntSets

  /** How many of `vs` the extractor sends to `key`: the reference the counter is checked against. */
  function Occurrences<V>(extract: V -> int, vs: seq<V>, key: int): (n: nat)
    ensures n <= |vs|
  {
    if vs == [] then 0
    else Occurrences(extract, vs[..|vs| - 1], key) + (if extract(vs[|vs| - 1]) == key then 1 else 0)
  }

  /** The count a map holds for `key`, 0 for a key it has not seen. */
  function CountIn(m: map<int, int>, key: int): int {
    if key in m then m[key] else 0
  }

  /** The count map after counting `vs` in order, one increment per element. */
  function Tally<V>(extract: V -> int, vs: seq<V>): map<int, int> {
    if vs == [] then map[]
    else
      var m := Tally(extract, vs[..|vs| - 1]);
      var key := extract(vs[|vs| - 1]);
      m[key := CountIn(m, key) + 1]
  }

  /** Each key's count is its number of occurrences, and only keys that occurred are stored. */
  lemma {:induction false} TallyCounts<V>(extract: V -> int, vs: seq<V>, key: int)
    ensures CountIn(Tally(extract, vs), key) == Occurrences(extract, vs, key)
    ensures key in Tally(extract, vs) <==> Occurrences(extract, vs, key) >= 1
  {
    if vs != [] {
      TallyCounts(extract, vs[..|vs| - 1], key);
    }
  }

  /** Every stored count is at least one. */
  lemma TallyPositive<V>(extract: V -> int, vs: seq<V>)
    ensures forall key :: key in Tally(extract, vs) ==> Tally(extract, vs)[key] >= 1
  {
    forall key | key in Tally(extract, vs)
      ensures Tally(extract, vs)[key] >= 1
    {
      TallyCounts(extract, vs, key);
    }
  }

  /** The sum of all counts in a map. */
  ghost function SumCounts(m: map<int, int>): int
    decreases m.Keys
  {
    if m.Keys == {} then 0
    else
      HasElement(m.Keys);
      var key :| key in m.Keys;
      m[key] + SumCounts(m - {key})
  }

  lemma {:induction false} SumCountsRemove(m: map<int, int>, key: int)
    requires key in m
    ensures SumCounts(m) == m[key] + SumCounts(m - {key})
    decreases m.Keys
  {
    var chosen :| chosen in m && SumCounts(m) == m[chosen] + SumCounts(m - {chosen});
    if chosen != key {
      SumCountsRemove(m - {chosen}, key);
      SumCountsRemove(m - {key}, chosen);
      assert m - {chosen} - {key} == m - {key} - {chosen};
    }
  }

  /** Incrementing one key raises the total by one. */
  lemma SumCountsIncrement(m: map<int, int>, key: int)
    ensures SumCounts(m[key := CountIn(m, key) + 1]) == SumCounts(m) + 1
  {
    var m' := m[key := CountIn(m, key) + 1];
    SumCountsRemove(m', key);
    assert m' - {key} == m - {key};
    if key in m {
      SumCountsRemove(m, key);
    } else {
      assert m - {key} == m;
    }
  }

  /** The counts sum to the number of elements counted. */
  lemma {:induction false} TallyTotal<V>(extract: V -> int, vs: seq<V>)
    ensures SumCounts(Tally(extract, vs)) == |vs|
  {
    if vs != [] {
      TallyTotal(extract, vs[..|vs| - 1]);
      SumCountsIncrement(Tally(extract, vs[..|vs| - 1]), extract(vs[|vs| - 1]));
    }
  }

  /** A non-empty finite set of keys has a least key. */
  lemma {:induction false} LeastKeyExists(s: set<int>)
    requires s != {}
    ensures exists k :: k in s && forall j :: j in s ==> k <= j
    decreases |s|
  {
    HasElement(s);
    var x :| x in s;
    if s != {x} {
      LeastKeyExists(s - {x});
      var m :| m in s - {x} && forall j :: j in s - {x} ==> m <= j;
      var least := if x < m then x else m;
      forall j | j in s
        ensures least <= j
      {
        if j != x {
          assert j in s - {x};
        }
      }
      assert least in s;
    } else {
      assert forall j :: j in s ==> x <= j;
    }
  }

  /** Pairs in strictly ascending key order. */
  predicate AscendingKeys(pairs: seq<(int, int)>) {
    forall i, j :: 0 <= i < j < |pairs| ==> pairs[i].0 < pairs[j].0
  }

  /** `pairs` lists exactly the entries of `m`, one pair per entry. */
  predicate ListsEntries(pairs: seq<(int, int)>, m: map<int, int>) {
    (forall i :: 0 <= i < |pairs| ==> pairs[i].0 in m && pairs[i].1 == m[pairs[i].0])
    && (forall k :: k in m ==> exists i :: 0 <= i < |pairs| && pairs[i].0 == k)
  }

  class CounterTp<V> {
    const keyExtractor: V -> int
    var countMap: map<int, int>
    /** The elements counted so far, in order. */
    ghost var counted: seq<V>

    ghost predicate Valid()
      reads this
    {
      countMap == Tally(keyExtractor, counted)
    }

    /** CounterTp(key_extractor) (counter_utils.h:24): nothing counted yet. */
    constructor (keyExtractor: V -> int)
      ensures Valid() && this.keyExtractor == keyExtractor
      ensures counted == [] && countMap == map[]
    {
      this.keyExtractor := keyExtractor;
      countMap := map[];
      counted := [];
    }

    /** Count (counter_utils.h:31): one more for the element's key, from 0 if unseen. */
    method Count(value: V)
      requires Valid()
      modifies this
      ensures Valid() && counted == old(counted) + [value]
      ensures countMap == old(countMap)[keyExtractor(value) := CountIn(old(countMap), keyExtractor(value)) + 1]
    {
      var key := keyExtractor(value);
      countMap := countMap[key := CountIn(countMap, key) + 1];
      counted := counted + [value];
      assert counted[..|counted| - 1] == old(counted);
    }

    /**
     * GetCountMap (counter_utils.h:37): a key maps to the number of counted
     * elements with that key, and only keys seen at least once are present.
     */
    function GetCountMap(): (m: map<int, int>)
      requires Valid()
      reads this
      ensures forall key :: key in m ==> m[key] == Occurrences(keyExtractor, counted, key) >= 1
      ensures forall key :: key !in m ==> Occurrences(keyExtractor, counted, key) == 0
    {
      TallyAgrees(keyExtractor, counted);
      countMap
    }

    /**
     * GetReverseByValue (counter_utils.h:38-46): the map's entries as pairs,
     * in ascending key order, one pair per entry.
     */
    method GetReverseByValue() returns (ret: seq<(int, int)>)
      ensures AscendingKeys(ret) && ListsEntries(ret, countMap) && |ret| == |countMap|
    {
      ret := [];
      var remaining := countMap.Keys;
      while remaining != {}
        invariant Listing(ret, remaining, countMap)
        decreases |remaining|
      {
        LeastKeyExists(remaining);
        var key :| key in remaining && forall j :: j in remaining ==> key <= j;
        ListingStep(ret, remaining, countMap, key);
        ret := ret + [(key, countMap[key])];
        remaining := remaining - {key};
      }
      ListingDone(ret, countMap);
    }
  }

  /**
   * Loop state of GetReverseByValue: `ret` lists, in ascending order, the
   * entries of `m` whose keys are no longer `remaining`, all below the keys still to come.
   */
  ghost predicate Listing(ret: seq<(int, int)>, remaining: set<int>, m: map<int, int>) {
    && remaining <= m.Keys
    && (forall i :: 0 <= i < |ret| ==> ret[i].0 in m && ret[i].1 == m[ret[i].0])
    && KeysOf(ret) == m.Keys - remaining
    && (forall i, k :: 0 <= i < |ret| && k in remaining ==> ret[i].0 < k)
    && AscendingKeys(ret)
    && |ret| + |remaining| == |m.Keys|
  }

  lemma ListingStep(ret: seq<(int, int)>, remaining: set<int>, m: map<int, int>, key: int)
    requires Listing(ret, remaining, m)
    requires key in remaining && forall j :: j in remaining ==> key <= j
    ensures Listing(ret + [(key, m[key])], remaining - {key}, m)
  {
    var ret' := ret + [(key, m[key])];
    KeysOfSnoc(ret, (key, m[key]));
    assert forall i :: 0 <= i < |ret| ==> ret'[i] == ret[i];
    assert AscendingKeys(ret');
  }

  lemma ListingDone(ret: seq<(int, int)>, m: map<int, int>)
    requires Listing(ret, {}, m)
    ensures AscendingKeys(ret) && ListsEntries(ret, m) && |ret| == |m|
  {
    forall k | k in m
      ensures exists i :: 0 <= i < |ret| && ret[i].0 == k
    {
      assert k in KeysOf(ret);
    }
  }

  /** The keys a list of pairs mentions. */
  ghost function KeysOf(pairs: seq<(int, int)>): set<int> {
    set i | 0 <= i < |pairs| :: pairs[i].0
  }

  lemma KeysOfSnoc(pairs: seq<(int, int)>, p: (int, int))
    ensures KeysOf(pairs + [p]) == KeysOf(pairs) + {p.0}
  {
    var extended := pairs + [p];
    assert extended[|pairs|].0 == p.0;
    forall k | k in KeysOf(pairs)
      ensures k in KeysOf(extended)
    {
      var i :| 0 <= i < |pairs| && pairs[i].0 == k;
      assert extended[i].0 == k;
    }
  }

  /** Every count the map holds agrees with the reference count. */
  lemma TallyAgrees<V>(extract: V -> int, vs: seq<V>)
    ensures forall key :: key in Tally(extract, vs) ==> Tally(extract, vs)[key] == Occurrences(extract, vs, key) >= 1
    ensures forall key :: key !in Tally(extract, vs) ==> Occurrences(extract, vs, key) == 0
  {
    forall key
      ensures key in Tally(extract, vs) ==> Tally(extract, vs)[key] == Occurrences(extract, vs, key) >= 1
      ensures key !in Tally(extract, vs) ==> Occurrences(extract, vs, key) == 0
    {
      TallyCounts(extract, vs, key);
    }
  }

  /**
   * Counting a sequence and listing the result: ascending keys, each with the
   * number of elements it was drawn from, and every key of the input listed.
   */
  method CountAll<V>(extract: V -> int, vs: seq<V>) returns (pairs: seq<(int, int)>)
    ensures AscendingKeys(pairs)
    ensures forall i :: 0 <= i < |pairs| ==> pairs[i].1 == Occurrences(extract, vs, pairs[i].0) >= 1
    ensures forall v :: v in vs ==> exists i :: 0 <= i < |pairs| && pairs[i].0 == extract(v)
  {
    var counter := new CounterTp(extract);
    for n := 0 to |vs|
      invariant counter.Valid() && counter.keyExtractor == extract && counter.counted == vs[..n]
    {
      counter.Count(vs[n]);
      assert vs[..n + 1] == vs[..n] + [vs[n]];
    }
    assert vs[..|vs|] == vs;
    TallyAgrees(extract, vs);
    pairs := counter.GetReverseByValue();
    forall v | v in vs
      ensures extract(v) in counter.countMap
    {
      OccursOnce(extract, vs, v);
      TallyCounts(extract, vs, extract(v));
    }
  }

  lemma {:induction false} OccursOnce<V>(extract: V -> int, vs: seq<V>, v: V)
    requires v in vs
    ensures Occurrences(extract, vs, extract(v)) >= 1
  {
    if vs[|vs| - 1] != v {
      assert v in vs[..|vs| - 1] by {
        var i :| 0 <= i < |vs| && vs[i] == v;
        assert vs[..|vs| - 1][i] == v;
      }
      OccursOnce(extract, vs[..|vs| - 1], v);
    }
  }
}
