/**
 * The capacity-bounded LRU cache of src/data_structures/lru_cache.h.
 *
 * The cache keeps two structures in step: `usage`, the recency list with the
 * most recently used key at the front (std::list<Key> in the library), and
 * `entries`, the key-to-value map (std::unordered_map). The list iterator that
 * each map entry carries is represented by the key's position in `usage`.
 *
 * The transitions are first given as functions on a `Cache` value (PutState,
 * GetState, EraseState, and Empty for Clear); the class LRUCache updates its fields in
 * place and each method promises that its new state is the one the function
 * computes. The lemmas state what LRU behaviour those functions have.
 */
module LruCache {
  import opened Wrappers

  /** No key occurs twice in `s`. */
  ghost predicate Distinct<K>(s: seq<K>) {
    forall i, j :: 0 <= i < j < |s| ==> s[i] != s[j]
  }

  /** The position of `k` in `s`: the list iterator a map entry holds. */
  function IndexOf<K(==)>(s: seq<K>, k: K): (i: nat)
    requires k in s
    ensures i < |s| && s[i] == k && k !in s[..i]
  {
    if s[0] == k then 0 else 1 + IndexOf(s[1..], k)
  }

  /** `s` with the first occurrence of `k` erased (std::list::erase at its iterator). */
  function Remove<K(==)>(s: seq<K>, k: K): (r: seq<K>)
    ensures k !in s ==> r == s
    ensures k in s ==> |r| == |s| - 1
    ensures forall x :: x in r ==> x in s
    ensures Distinct(s) ==> Distinct(r) && k !in r && forall x :: x in s && x != k ==> x in r
  {
    if s == [] then []
    else if s[0] == k then s[1..]
    else
      var rest := Remove(s[1..], k);
      assert Distinct(s) ==> s[0] !in rest;
      assert forall i :: 1 <= i < |rest| + 1 ==> ([s[0]] + rest)[i] == rest[i - 1];
      [s[0]] + rest
  }

  /** The set of keys a list holds. */
  function Members<K>(s: seq<K>): set<K> {
    set x | x in s
  }

  /** Pushing a key at the front of a list that lacks it keeps it duplicate-free. */
  lemma PushFrontDistinct<K>(x: K, s: seq<K>)
    requires Distinct(s) && x !in s
    ensures Distinct([x] + s) && Members([x] + s) == Members(s) + {x}
  {
    assert forall i :: 1 <= i < |s| + 1 ==> ([x] + s)[i] == s[i - 1];
  }

  /** Popping the back of a duplicate-free list loses exactly that key. */
  lemma PopBackDistinct<K>(s: seq<K>)
    requires Distinct(s) && s != []
    ensures Distinct(s[..|s| - 1])
    ensures Members(s[..|s| - 1]) == Members(s) - {s[|s| - 1]}
  {
    var last := s[|s| - 1];
    assert last !in s[..|s| - 1];
    assert s == s[..|s| - 1] + [last];
  }

  /** Erasing a key keeps every other key and their relative order: the list loses one slot. */
  lemma {:induction false} RemoveIsSlice<K>(s: seq<K>, k: K)
    requires k in s
    ensures Remove(s, k) == s[..IndexOf(s, k)] + s[IndexOf(s, k) + 1..]
  {
    if s[0] != k {
      var t := s[1..];
      var i := IndexOf(t, k);
      RemoveIsSlice(t, k);
      assert IndexOf(s, k) == i + 1;
      assert Remove(s, k) == [s[0]] + Remove(t, k);
      assert [s[0]] + t[..i] == s[..i + 1];
      assert t[i + 1..] == s[i + 2..];
    }
  }

  /** A duplicate-free list has exactly as many distinct members as slots. */
  lemma {:induction false} DistinctCardinality<K>(s: seq<K>)
    requires Distinct(s)
    ensures |Members(s)| == |s|
  {
    if s != [] {
      DistinctCardinality(s[1..]);
      assert Members(s) == Members(s[1..]) + {s[0]};
      assert s[0] !in Members(s[1..]);
    }
  }

  /** The state of a cache: the recency list, most recently used first, and the map. */
  datatype Cache<K(==), V> = Cache(usage: seq<K>, entries: map<K, V>)

  /**
   * The class invariant: the recency list is a duplicate-free permutation of
   * the map's keys, and the map holds no more than `capacity` entries.
   */
  ghost predicate Inv<K, V>(c: Cache<K, V>, capacity: nat) {
    && Distinct(c.usage)
    && Members(c.usage) == c.entries.Keys
    && |c.entries| <= capacity
  }

  /** Under the invariant the list and the map have the same size. */
  lemma SizesAgree<K, V>(c: Cache<K, V>, capacity: nat)
    requires Inv(c, capacity)
    ensures |c.usage| == |c.entries|
  {
    DistinctCardinality(c.usage);
  }

  /** The empty cache a constructor or Clear leaves. */
  function Empty<K(==), V>(): (c: Cache<K, V>)
    ensures forall capacity: nat :: Inv(c, capacity)
    ensures c.usage == [] && |c.entries| == 0
  {
    Cache([], map[])
  }

  /**
   * Put (lru_cache.h:41-64): an existing key gets its new value and moves to
   * the front; a new key arriving at a full cache first evicts the back of
   * the list, then goes in at the front.
   */
  function PutState<K(==), V>(c: Cache<K, V>, capacity: nat, key: K, value: V): Cache<K, V>
    requires Inv(c, capacity) && capacity >= 1
  {
    if key in c.entries then
      Cache([key] + Remove(c.usage, key), c.entries[key := value])
    else
      var c' := if |c.entries| >= capacity then Evict(c, capacity) else c;
      Cache([key] + c'.usage, c'.entries[key := value])
  }

  /** The eviction step of Put (lru_cache.h:52-57): drop the back of the list from both structures. */
  function Evict<K(==), V>(c: Cache<K, V>, capacity: nat): (r: Cache<K, V>)
    requires Inv(c, capacity) && capacity >= 1 && |c.entries| >= capacity
    ensures |c.usage| > 0
    ensures r == Cache(c.usage[..|c.usage| - 1], c.entries - {c.usage[|c.usage| - 1]})
    ensures Inv(r, capacity) && |r.entries| == |c.entries| - 1
  {
    SizesAgree(c, capacity);
    var lru := c.usage[|c.usage| - 1];
    PopBackDistinct(c.usage);
    Cache(c.usage[..|c.usage| - 1], c.entries - {lru})
  }

  /** Every Put leaves the invariant in place, so Size() <= Capacity() after it. */
  lemma PutKeepsInvariant<K, V>(c: Cache<K, V>, capacity: nat, key: K, value: V)
    requires Inv(c, capacity) && capacity >= 1
    ensures Inv(PutState(c, capacity, key, value), capacity)
  {
    if key in c.entries {
      MoveToFrontKeepsInvariant(c, capacity, key, c.entries[key := value]);
    } else {
      var c' := if |c.entries| >= capacity then Evict(c, capacity) else c;
      SizesAgree(c', capacity);
      InsertFrontKeepsInvariant(c', capacity, key, value);
    }
  }

  /** Moving a present key to the front, with the same key set in the map, keeps the invariant. */
  lemma MoveToFrontKeepsInvariant<K, V>(c: Cache<K, V>, capacity: nat, key: K, entries: map<K, V>)
    requires Inv(c, capacity) && key in c.entries && entries.Keys == c.entries.Keys
    ensures Inv(Cache([key] + Remove(c.usage, key), entries), capacity)
  {
    var rest := Remove(c.usage, key);
    PushFrontDistinct(key, rest);
    assert Members(rest) == Members(c.usage) - {key};
    assert |entries| == |entries.Keys| == |c.entries.Keys| == |c.entries|;
  }

  /** Inserting an absent key at the front of a cache with room keeps the invariant. */
  lemma InsertFrontKeepsInvariant<K, V>(c: Cache<K, V>, capacity: nat, key: K, value: V)
    requires Inv(c, capacity) && key !in c.entries && |c.entries| < capacity
    ensures Inv(Cache([key] + c.usage, c.entries[key := value]), capacity)
  {
    PushFrontDistinct(key, c.usage);
    assert c.entries[key := value].Keys == c.entries.Keys + {key};
  }

  /** Get (lru_cache.h:74-86): a present key is moved to the front and its value returned. */
  function GetState<K(==), V>(c: Cache<K, V>, key: K): (Cache<K, V>, Option<V>) {
    if key !in c.entries then (c, None)
    else (Cache([key] + Remove(c.usage, key), c.entries), Some(c.entries[key]))
  }

  /** Erase (lru_cache.h:102-111): unlink a present key from both structures. */
  function EraseState<K(==), V>(c: Cache<K, V>, key: K): (Cache<K, V>, bool) {
    if key !in c.entries then (c, false)
    else (Cache(Remove(c.usage, key), c.entries - {key}), true)
  }

  /** Put on an existing key replaces its value and makes it most recent; no key is evicted. */
  lemma PutExistingKey<K, V>(c: Cache<K, V>, capacity: nat, key: K, value: V)
    requires Inv(c, capacity) && capacity >= 1 && key in c.entries
    ensures var r := PutState(c, capacity, key, value);
      && r.entries.Keys == c.entries.Keys
      && r.entries[key] == value
      && (forall k :: k in c.entries && k != key ==> r.entries[k] == c.entries[k])
      && r.usage[0] == key
      && r.usage[1..] == Remove(c.usage, key)
      && |r.entries| == |c.entries|
  {
  }

  /** A new key at a full cache evicts exactly the least recently used key, the back of the list. */
  lemma PutEvictsLeastRecent<K, V>(c: Cache<K, V>, capacity: nat, key: K, value: V)
    requires Inv(c, capacity) && capacity >= 1 && key !in c.entries && |c.entries| >= capacity
    ensures |c.usage| > 0
    ensures var r := PutState(c, capacity, key, value); var lru := c.usage[|c.usage| - 1];
      && r.entries == (c.entries - {lru})[key := value]
      && r.usage == [key] + c.usage[..|c.usage| - 1]
      && lru !in r.entries
      && |r.entries| == |c.entries| == capacity
  {
    SizesAgree(c, capacity);
  }

  /** A new key with room to spare is added at the front and nothing is evicted. */
  lemma PutWithRoom<K, V>(c: Cache<K, V>, capacity: nat, key: K, value: V)
    requires Inv(c, capacity) && capacity >= 1 && key !in c.entries && |c.entries| < capacity
    ensures var r := PutState(c, capacity, key, value);
      && r.entries == c.entries[key := value]
      && r.usage == [key] + c.usage
      && |r.entries| == |c.entries| + 1
  {
  }

  /** Get of a present key returns its value and makes it most recent; of an absent key, nothing changes. */
  lemma GetMovesToFront<K, V>(c: Cache<K, V>, capacity: nat, key: K)
    requires Inv(c, capacity)
    ensures var (r, v) := GetState(c, key);
      && Inv(r, capacity)
      && r.entries == c.entries
      && (key in c.entries ==> v == Some(c.entries[key]) && r.usage == [key] + Remove(c.usage, key))
      && (key !in c.entries ==> v == None && r == c)
  {
  }

  /** Erase reports whether the key was there, drops only it, and keeps the others' order. */
  lemma EraseOnlyThatKey<K, V>(c: Cache<K, V>, capacity: nat, key: K)
    requires Inv(c, capacity)
    ensures var (r, erased) := EraseState(c, key);
      && Inv(r, capacity)
      && erased == (key in c.entries)
      && r.entries.Keys == c.entries.Keys - {key}
      && (forall k :: k in r.entries ==> r.entries[k] == c.entries[k])
      && (erased ==> r.usage == c.usage[..IndexOf(c.usage, key)] + c.usage[IndexOf(c.usage, key) + 1..])
      && (!erased ==> r == c)
  {
    if key in c.entries {
      RemoveIsSlice(c.usage, key);
      assert |c.entries - {key}| <= |c.entries|;
    }
  }

  /** `s` backwards. */
  function Reverse<K>(s: seq<K>): (r: seq<K>)
    ensures |r| == |s|
  {
    if s == [] then [] else Reverse(s[1..]) + [s[0]]
  }

  lemma {:induction false} ReverseSnoc<K>(s: seq<K>, x: K)
    ensures Reverse(s + [x]) == [x] + Reverse(s)
  {
    if s != [] {
      assert (s + [x])[1..] == s[1..] + [x];
      ReverseSnoc(s[1..], x);
    }
  }

  lemma {:induction false} ReverseMembers<K>(s: seq<K>)
    ensures forall x :: x in Reverse(s) <==> x in s
  {
    if s != [] {
      ReverseMembers(s[1..]);
      assert forall x :: x in s <==> x == s[0] || x in s[1..];
    }
  }

  lemma {:induction false} ReverseDistinct<K>(s: seq<K>)
    requires Distinct(s)
    ensures Distinct(Reverse(s))
  {
    if s != [] {
      ReverseDistinct(s[1..]);
      ReverseMembers(s[1..]);
      var r := Reverse(s);
      assert r == Reverse(s[1..]) + [s[0]];
      assert s[0] !in Reverse(s[1..]);
    }
  }

  /** Dropping the back of the reversed list drops the front of the original. */
  lemma ReverseDropLast<K>(s: seq<K>)
    requires s != []
    ensures Reverse(s)[..|s| - 1] == Reverse(s[1..])
    ensures Reverse(s)[|s| - 1] == s[0]
  {
  }

  /** The cache after putting `keys` one after the other into `c`. */
  function PutAll<K(==), V>(c: Cache<K, V>, capacity: nat, keys: seq<K>, value: V): (r: Cache<K, V>)
    requires Inv(c, capacity) && capacity >= 1
    ensures Inv(r, capacity)
    decreases keys
  {
    if keys == [] then c
    else
      PutKeepsInvariant(c, capacity, keys[0], value);
      PutAll(PutState(c, capacity, keys[0], value), capacity, keys[1..], value)
  }

  /** Putting `keys` one after the other, as a left-to-right history. */
  lemma {:induction false} PutAllSnoc<K, V>(c: Cache<K, V>, capacity: nat, keys: seq<K>, key: K, value: V)
    requires Inv(c, capacity) && capacity >= 1
    ensures PutAll(c, capacity, keys + [key], value)
         == PutState(PutAll(c, capacity, keys, value), capacity, key, value)
    decreases keys
  {
    if keys != [] {
      PutKeepsInvariant(c, capacity, keys[0], value);
      assert (keys + [key])[1..] == keys[1..] + [key];
      PutAllSnoc(PutState(c, capacity, keys[0], value), capacity, keys[1..], key, value);
    }
  }

  /** Where the kept window of `n` distinct puts into a cache of `capacity` starts. */
  function KeptFrom(n: nat, capacity: nat): nat {
    if n <= capacity then 0 else n - capacity
  }

  /** The last element of a duplicate-free list does not occur before it. */
  lemma DistinctSnoc<K>(s: seq<K>)
    requires Distinct(s) && s != []
    ensures Distinct(s[..|s| - 1]) && s[|s| - 1] !in s[..|s| - 1]
  {
  }

  /**
   * Putting distinct keys into an empty cache keeps exactly the last
   * `capacity` of them, most recent first: each overflowing key evicts the
   * oldest one (lru_cache_test.cc EvictionPolicy and HeavyUsage).
   */
  lemma {:induction false} DistinctPutsKeepNewest<K, V>(capacity: nat, keys: seq<K>, value: V)
    requires capacity >= 1 && Distinct(keys)
    ensures Inv(Empty<K, V>(), capacity)
    ensures PutAll(Empty(), capacity, keys, value).usage == Reverse(keys[KeptFrom(|keys|, capacity)..])
  {
    assert Members<K>([]) == {};
    if keys != [] {
      var n := |keys| - 1;
      var prefix, key := keys[..n], keys[n];
      DistinctSnoc(keys);
      DistinctPutsKeepNewest(capacity, prefix, value);
      assert keys == prefix + [key];
      PutAllSnoc(Empty(), capacity, prefix, key, value);
      var c := PutAll(Empty<K, V>(), capacity, prefix, value);
      PutOneMoreDistinct(c, capacity, prefix, key, value);
    }
  }

  /** One more distinct put moves the kept window one key to the right once the cache is full. */
  lemma PutOneMoreDistinct<K, V>(c: Cache<K, V>, capacity: nat, prefix: seq<K>, key: K, value: V)
    requires Inv(c, capacity) && capacity >= 1 && key !in prefix
    requires c.usage == Reverse(prefix[KeptFrom(|prefix|, capacity)..])
    ensures PutState(c, capacity, key, value).usage == Reverse((prefix + [key])[KeptFrom(|prefix| + 1, capacity)..])
  {
    var lo := KeptFrom(|prefix|, capacity);
    ReverseMembers(prefix[lo..]);
    SizesAgree(c, capacity);
    if |prefix| < capacity {
      assert prefix[lo..] == prefix;
      PutFitsWindow(c, capacity, prefix, key, value);
    } else {
      PutSlidesWindow(c, capacity, prefix, key, value);
    }
  }

  /** While there is room, a distinct put extends the window at the front. */
  lemma PutFitsWindow<K, V>(c: Cache<K, V>, capacity: nat, prefix: seq<K>, key: K, value: V)
    requires Inv(c, capacity) && capacity >= 1 && key !in c.entries && |c.entries| < capacity
    requires c.usage == Reverse(prefix) && |prefix| < capacity
    ensures PutState(c, capacity, key, value).usage == Reverse((prefix + [key])[KeptFrom(|prefix| + 1, capacity)..])
  {
    PutWithRoom(c, capacity, key, value);
    ReverseSnoc(prefix, key);
    assert (prefix + [key])[0..] == prefix + [key];
  }

  /** Once the cache is full, a distinct put drops the oldest kept key. */
  lemma PutSlidesWindow<K, V>(c: Cache<K, V>, capacity: nat, prefix: seq<K>, key: K, value: V)
    requires Inv(c, capacity) && capacity >= 1 && key !in c.entries && |c.entries| >= capacity
    requires |prefix| >= capacity && c.usage == Reverse(prefix[KeptFrom(|prefix|, capacity)..])
    ensures PutState(c, capacity, key, value).usage == Reverse((prefix + [key])[KeptFrom(|prefix| + 1, capacity)..])
  {
    PutEvictsLeastRecent(c, capacity, key, value);
    WindowAfterEviction(prefix, key, capacity, c.usage, PutState(c, capacity, key, value).usage);
  }

  /** The list after an eviction and a push, in terms of the window of keys it keeps. */
  lemma WindowAfterEviction<K>(prefix: seq<K>, key: K, capacity: nat, before: seq<K>, after: seq<K>)
    requires |prefix| >= capacity >= 1 && before == Reverse(prefix[KeptFrom(|prefix|, capacity)..])
    requires |before| > 0 && after == [key] + before[..|before| - 1]
    ensures after == Reverse((prefix + [key])[KeptFrom(|prefix| + 1, capacity)..])
  {
    var lo := KeptFrom(|prefix|, capacity);
    assert KeptFrom(|prefix| + 1, capacity) == lo + 1;
    WindowSlides(prefix, key, lo);
  }

  /** Dropping the oldest kept key and pushing a new one slides the reversed window. */
  lemma WindowSlides<K>(prefix: seq<K>, key: K, lo: nat)
    requires lo < |prefix|
    ensures [key] + Reverse(prefix[lo..])[..|prefix| - lo - 1] == Reverse((prefix + [key])[lo + 1..])
  {
    var keys := prefix + [key];
    ReverseDropLast(prefix[lo..]);
    assert prefix[lo..][1..] == keys[lo + 1..|prefix|];
    ReverseSnoc(keys[lo + 1..|prefix|], key);
    assert keys[lo + 1..|prefix|] + [key] == keys[lo + 1..];
  }

  /**
   * The cache object. `usage` and `entries` are the source's `usage_list_`
   * and `cache_map_`; `capacity` is `capacity_`, fixed by the constructor.
   */
  class LRUCache<K(==), V> {
    const capacity: nat
    var usage: seq<K>
    var entries: map<K, V>

    /** The state both structures describe together. */
    function State(): Cache<K, V>
      reads this
    {
      Cache(usage, entries)
    }

    ghost predicate Valid()
      reads this
    {
      Inv(State(), capacity)
    }

    /** LRUCache(capacity) (lru_cache.h:29): an empty cache of the given capacity. */
    constructor (capacity: nat)
      ensures Valid() && this.capacity == capacity && State() == Empty()
    {
      this.capacity := capacity;
      usage := [];
      entries := map[];
    }

    /** Put (lru_cache.h:41-64); a cache of capacity 0 would read the back of an empty list. */
    method Put(key: K, value: V)
      requires Valid() && capacity >= 1
      modifies this
      ensures Valid()
      ensures State() == PutState(old(State()), capacity, key, value)
    {
      PutKeepsInvariant(State(), capacity, key, value);
      if key in entries {
        usage := [key] + Remove(usage, key);
        entries := entries[key := value];
      } else {
        if |entries| >= capacity {
          ghost var evicted := Evict(State(), capacity);
          var lru := usage[|usage| - 1];
          entries := entries - {lru};
          usage := usage[..|usage| - 1];
          assert State() == evicted;
        }
        usage := [key] + usage;
        entries := entries[key := value];
      }
    }

    /** Get (lru_cache.h:74-86): a read that also promotes the key. */
    method Get(key: K) returns (v: Option<V>)
      requires Valid()
      modifies this
      ensures Valid()
      ensures (State(), v) == GetState(old(State()), key)
    {
      if key !in entries {
        return None;
      }
      usage := [key] + Remove(usage, key);
      v := Some(entries[key]);
      GetMovesToFront(old(State()), capacity, key);
    }

    /** Contains (lru_cache.h:93-95): a query that leaves the recency order alone. */
    function Contains(key: K): (b: bool)
      reads this
      requires Valid()
      ensures b <==> key in usage
    {
      key in entries
    }

    /** Erase (lru_cache.h:102-111). */
    method Erase(key: K) returns (erased: bool)
      requires Valid()
      modifies this
      ensures Valid()
      ensures (State(), erased) == EraseState(old(State()), key)
    {
      if key !in entries {
        return false;
      }
      usage := Remove(usage, key);
      entries := entries - {key};
      EraseOnlyThatKey(old(State()), capacity, key);
      return true;
    }

    /** Size (lru_cache.h:117-119): the number of entries, never above the capacity. */
    function Size(): (n: nat)
      reads this
      requires Valid()
      ensures n == |usage| && n <= capacity
    {
      SizesAgree(State(), capacity);
      |entries|
    }

    /** Capacity (lru_cache.h:125-127). */
    function Capacity(): nat
      reads this
    {
      capacity
    }

    /** Clear (lru_cache.h:132-135): no key remains; the capacity stays. */
    method Clear()
      requires Valid()
      modifies this
      ensures Valid() && State() == Empty()
    {
      entries := map[];
      usage := [];
    }
  }

  /**
   * A read protects its key from the next eviction: once a present key has
   * been read, a new key arriving at a full cache of capacity 2 or more evicts
   * the least recently used of the other keys and keeps the one just read
   * (lru_cache_test.cc:47-57).
   */
  lemma ReadProtectsFromEviction<K, V>(c: Cache<K, V>, capacity: nat, read: K, key: K, value: V)
    requires Inv(c, capacity) && capacity >= 2 && |c.entries| >= capacity
    requires read in c.entries && key !in c.entries
    ensures Inv(GetState(c, read).0, capacity)
    ensures var others := Remove(c.usage, read);
      var r := PutState(GetState(c, read).0, capacity, key, value);
      && |others| > 0
      && read in r.entries && key in r.entries
      && r.entries.Keys == c.entries.Keys - {others[|others| - 1]} + {key}
  {
    GetMovesToFront(c, capacity, read);
    var c' := GetState(c, read).0;
    SizesAgree(c, capacity);
    var others := Remove(c.usage, read);
    assert c'.usage == [read] + others;
    PutEvictsLeastRecent(c', capacity, key, value);
    assert c'.usage[|c'.usage| - 1] == others[|others| - 1];
    assert others[|others| - 1] != read;
  }
}
