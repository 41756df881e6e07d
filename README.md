# playground core, modelled in Dafny

This project models the core of the C++ utility library *playground*:

- the capacity-bounded LRU cache;
- the comparison sorts and selection of `src/algorithms/sorting.h`: QuickSort, MergeSort, HeapSort, InsertionSort, QuickSelect and IsSorted;
- CountingSort and RadixSort of `src/algorithms/sorting.cc`;
- the string helpers of `src/utils/string_utils.cc`;
- the statistics of `src/math/statistics.h` over integer values;
- ThreadSafeQueue, seen as a sequential FIFO queue;
- the counter CounterTp;
- the record CustomObject.

The model keeps the form of the source. Code that updates state in place is imperative Dafny:
- the LRU cache, the queue, the counter and CustomObject are classes whose methods update their fields;
- the sorts work in place on arrays, with loops carrying invariants.

Each method is proved against a specification function, and lemmas state what the source promises about that function:
- a sort leaves its range sorted and a permutation of what it held;
- Split and Join round-trip;
- Put evicts exactly the least recently used key;
- a percentile lies between the minimum and the maximum and grows with p;
- and so on.

One module per file:
- `wrappers.dfy`: Option.
- `int_seqs.dfy`, `int_sets.dfy`: minimum and maximum of a sequence, and picking from a set.
- `sort_spec.dfy`: strict weak orders, sortedness, and the k-th smallest element characterised by counting.
- `quick_sort.dfy`, `merge_sort.dfy`, `heap_sort.dfy`, `insertion_sort.dfy`, `counting_sort.dfy`.
- `lru_cache.dfy`, `thread_safe_queue.dfy`, `custom_object.dfy`, `counter_utils.dfy`.
- `string_utils.dfy`, `statistics.dfy`.

Every `comp` a sort takes is assumed to be a strict weak order: asymmetric, and "not less than" is transitive. That is the requirement the standard library places on such comparators.

## Model

| member | source | states |
|---|---|---|
| SortSpec.AdjacentSortedIsSorted | src/algorithms/sorting.h:362-380 | for a strict weak order, no element being less than its predecessor is equivalent to no later element being less than any earlier one |
| SortSpec.CountPermutation | src/algorithms/sorting.h:322-331 | how many elements satisfy a test does not depend on their order: permutations have equal counts |
| SortSpec.PartitionedIsKth | src/algorithms/sorting.h:300-314 | an element with no greater element before it and no smaller one after it, at position k, is the k-th smallest of any permutation of the range |
| SortSpec.SortedIsKth | src/algorithms/sorting.h:322-331 | in a sorted permutation of s, the element at k is the k-th smallest of s |
| SortSpec.IntLessIsStrictWeakOrder | src/math/statistics.h:47 | the `<` that std::sort uses on int is a strict weak order |
| SortSpec.SortedAscending | src/math/statistics.h:47 | a sequence sorted by `<` is non-decreasing at every pair of positions |
| QuickSorts.Partition | src/algorithms/sorting.h:37-49 | the pivot, the last element of the range, lands at p; everything before it is less, nothing after it is less; the array is a permutation and nothing outside the range moves |
| QuickSorts.QuickSortImpl | src/algorithms/sorting.h:34-59 | the range ends sorted; the array is a permutation; nothing outside the range moves |
| QuickSorts.JoinParts | src/algorithms/sorting.h:50-58 | two sorted sides around a partition pivot make a sorted range |
| QuickSorts.QuickSortRange | src/algorithms/sorting.h:26-62 | the range ends sorted and a permutation of what it held; the rest of the array is untouched |
| QuickSorts.QuickSort | src/algorithms/sorting.h:70-75 | the whole vector ends sorted and a permutation of what it held |
| QuickSorts.SelectPartition | src/algorithms/sorting.h:285-298 | on the inclusive range [low, high], the pivot lands at pivotIndex with smaller elements before it and none smaller after it; a permutation; the outside is unchanged |
| QuickSorts.SelectImpl | src/algorithms/sorting.h:300-314 | returns targetK itself, and the element there has no greater element before it and no smaller one after it |
| QuickSorts.PartitionSeparates | src/algorithms/sorting.h:305-313 | after partitioning a separated range, both sides are separated ranges and the pivot is in its sorted place |
| QuickSorts.SelectOnCopy | src/algorithms/sorting.h:282-316 | the index found on the copy is k, and the copy holds the k-th smallest element of the input there |
| QuickSorts.QuickSelectIterator | src/algorithms/sorting.h:274-320 | the iterator returned is the start of the untouched input advanced by k |
| QuickSorts.QuickSelect | src/algorithms/sorting.h:332-337 | as written, returns the input's element at position k |
| QuickSorts.QuickSelectReturnsPosition | src/algorithms/sorting.h:319 | for [2, 1] and k = 0, QuickSelect returns 2, which is not the smallest element |
| QuickSorts.QuickSelectCorrected | src/algorithms/sorting.h:322-331 | returns the k-th smallest element of the input, as documented |
| MergeSorts.MergedPermutes | src/algorithms/sorting.h:96-115 | the merge holds exactly the elements of both inputs |
| MergeSorts.MergedLength | src/algorithms/sorting.h:96-115 | the merge is as long as both inputs together |
| MergeSorts.MergedSorted | src/algorithms/sorting.h:98-109 | merging two sorted sequences gives a sorted sequence |
| MergeSorts.Merge | src/algorithms/sorting.h:95-119 | the two adjacent ranges are replaced by their merge; nothing else moves |
| MergeSorts.MergeIntoBuffer | src/algorithms/sorting.h:96-115 | the fresh buffer holds the merge of the two ranges |
| MergeSorts.MergeLoop | src/algorithms/sorting.h:98-109 | the two-pointer loop emits a prefix of the merge and stops when one side runs out |
| MergeSorts.MergeSortImpl | src/algorithms/sorting.h:122-137 | the range ends sorted and a permutation of what it held; nothing outside it moves |
| MergeSorts.HalvesPermute | src/algorithms/sorting.h:130-133 | permuting both halves of a range permutes the whole range |
| MergeSorts.MergeSortRange | src/algorithms/sorting.h:85-140 | ranges of at most one element are untouched; otherwise the range ends sorted and a permutation |
| MergeSorts.MergeSort | src/algorithms/sorting.h:148-153 | the whole vector ends sorted and a permutation of what it held |
| HeapSorts.SiftStep | src/algorithms/sorting.h:185-191 | swapping a node with its larger child moves the one heap disorder down to that child |
| HeapSorts.SiftDone | src/algorithms/sorting.h:185-191 | a node not below its children leaves no disorder: the heap property holds |
| HeapSorts.RootIsMax | src/algorithms/sorting.h:201-207 | no element of a max-heap is above its root |
| HeapSorts.HeapSortRange | src/algorithms/sorting.h:163-208 | the range ends sorted and a permutation of what it held; nothing outside it moves |
| HeapSorts.HeapSort | src/algorithms/sorting.h:216-221 | the whole vector ends sorted and a permutation of what it held |
| HeapSorts.BuildHeap | src/algorithms/sorting.h:196-198 | the range becomes a max-heap with the same elements |
| HeapSorts.ExtractMax | src/algorithms/sorting.h:201-207 | one extract pass shrinks the heap by one, grows the sorted tail by the maximum, and keeps the heap separated from the tail |
| HeapSorts.SwapRoot | src/algorithms/sorting.h:203 | swapping the root to position i grows the sorted tail and leaves only the root out of heap order |
| HeapSorts.Repair | src/algorithms/sorting.h:206 | sifting the new root down restores the heap of [0, i) and keeps the tail |
| HeapSorts.ExtractStep | src/algorithms/sorting.h:203 | the root swap extends the sorted tail by the heap's maximum |
| HeapSorts.Heapify | src/algorithms/sorting.h:171-193 | the sift-down turns a heap with one disorder at i into a heap; the elements are kept |
| HeapSorts.Largest | src/algorithms/sorting.h:172-184 | the choice is i or one of its children, and is not below i nor below any child of i |
| InsertionSorts.InsertOne | src/algorithms/sorting.h:238-247 | the element at `it` moves down to p past exactly the elements it is less than; the others shift up by one |
| InsertionSorts.Inserted | src/algorithms/sorting.h:238-247 | same length; the element at `it` sits at p, the elements from p to it - 1 move up one place, and every other position is unchanged |
| InsertionSorts.InsertedPermutes | src/algorithms/sorting.h:238-247 | moving one element keeps the multiset |
| InsertionSorts.InsertedSorted | src/algorithms/sorting.h:238-247 | inserting into a sorted prefix just above the last element it is not less than gives a sorted prefix one longer |
| InsertionSorts.InsertStep | src/algorithms/sorting.h:236-248 | one outer pass keeps the prefix sorted, the multiset, and the outside of the range |
| InsertionSorts.InsertionSortRange | src/algorithms/sorting.h:231-249 | the range ends sorted; the array is a permutation; nothing outside the range moves |
| InsertionSorts.InsertionSort | src/algorithms/sorting.h:257-262 | the whole vector ends sorted and a permutation of what it held |
| InsertionSorts.IsSortedRange | src/algorithms/sorting.h:362-380 | true exactly when no element is less than its predecessor; for a strict weak order, exactly when the range is sorted; true for at most one element |
| InsertionSorts.IsSorted | src/algorithms/sorting.h:389-392 | the same answer for the whole vector |
| CountingSorts.BucketAppend | src/algorithms/sorting.cc:35-38 | the bucket of a concatenation is the concatenation of the buckets: buckets keep input order |
| CountingSorts.BucketMultiset | src/algorithms/sorting.cc:23-25 | a bucket holds each element with that key exactly as often as the input does, and nothing else |
| CountingSorts.BucketsPermutation | src/algorithms/sorting.cc:19-43 | when every key lies in [0, m], the buckets 0 to m together are a permutation of the input |
| CountingSorts.BucketsKeyOrder | src/algorithms/sorting.cc:29-38 | every key in the bucket concatenation lies in [0, v], and the keys are non-decreasing along it |
| CountingSorts.BucketKeepsOrder | src/algorithms/sorting.cc:35-38 | any order the input had survives within a bucket: the pass is stable |
| CountingSorts.BucketsLexOrder | src/algorithms/sorting.cc:57-81 | a pass over data ordered by a lower key leaves it ordered by the key first and by the lower key among ties |
| CountingSorts.CountKeys | src/algorithms/sorting.cc:23-25 | count[v] is the number of elements with key v |
| CountingSorts.PrefixSums | src/algorithms/sorting.cc:29-31 | count[v] becomes the end position of bucket v, the number of elements with key at most v |
| CountingSorts.FillBackward | src/algorithms/sorting.cc:34-38 | the backward fill writes exactly the bucket concatenation into the output |
| CountingSorts.PlaceNext | src/algorithms/sorting.cc:36-37 | storing an element just before its bucket's counter keeps every bucket region filled with its bucket's tail |
| CountingSorts.Distribute | src/algorithms/sorting.cc:20-38 | a fresh buffer holding the stable bucket concatenation |
| CountingSorts.CountingPass | src/algorithms/sorting.cc:19-43 | the data becomes the bucket concatenation of what it held |
| CountingSorts.CountingSort | src/algorithms/sorting.cc:13-44 | the data ends non-decreasing and a permutation; with two or more elements, it is the stable bucket order |
| CountingSorts.DefaultMaxValueRejectsAll | src/algorithms/sorting.h:401 | with the declared default max_value of -1, no input of two or more elements is a valid index into the count buffer |
| CountingSorts.CountingSortDefault | src/algorithms/sorting.h:396-401 | with the bound computed from the data, any non-negative input ends sorted and a permutation |
| CountingSorts.ModSplit | src/algorithms/sorting.cc:63 | the remainder by 10e is the digit at e followed by the remainder by e |
| CountingSorts.DigitOrder | src/algorithms/sorting.cc:63 | digit-then-remainder order on non-negative numbers is order of the remainder by 10e |
| CountingSorts.RadixPass | src/algorithms/sorting.cc:57-81 | a digit pass over data ordered modulo e gives a permutation ordered modulo 10e |
| CountingSorts.DigitPass | src/algorithms/sorting.cc:57-81 | one loop iteration keeps the multiset and lifts the order from modulo exp to modulo 10·exp |
| CountingSorts.FinalOrder | src/algorithms/sorting.cc:56 | once exp exceeds every element, order modulo exp is plain order |
| CountingSorts.RadixSort | src/algorithms/sorting.cc:47-83 | a permutation; non-negative input ends ascending; input with no positive element is left as it was |
| CountingSorts.Int32 | src/algorithms/sorting.cc:56 | the result lies in the int range and agrees with x modulo 2^32 |
| CountingSorts.RadixExpOverflows | src/algorithms/sorting.cc:56 | for an input holding 10^9, the loop runs at exp = 10^9 and `exp *= 10` does not fit in an int |
| LruCache.IndexOf | src/data_structures/lru_cache.h:140 | the position of the key's first occurrence in the recency list, the iterator its map entry holds |
| LruCache.Remove | src/data_structures/lru_cache.h:45 | erasing a key from a duplicate-free list removes it and keeps every other key |
| LruCache.RemoveIsSlice | src/data_structures/lru_cache.h:81 | erasing a key removes exactly its slot and keeps the other keys in order |
| LruCache.PushFrontDistinct | src/data_structures/lru_cache.h:60 | pushing an absent key at the front keeps the list duplicate-free and adds just that key |
| LruCache.PopBackDistinct | src/data_structures/lru_cache.h:56 | popping the back loses exactly that key |
| LruCache.DistinctCardinality | src/data_structures/lru_cache.h:144-145 | a duplicate-free list has as many distinct keys as slots |
| LruCache.SizesAgree | src/data_structures/lru_cache.h:117-119 | under the invariant, the list and the map have the same size |
| LruCache.Empty | src/data_structures/lru_cache.h:132-135 | the empty cache satisfies the invariant for any capacity |
| LruCache.Evict | src/data_structures/lru_cache.h:52-57 | the back key leaves both the list and the map, keeping the invariant with one entry fewer |
| LruCache.PutKeepsInvariant | src/data_structures/lru_cache.h:41-64 | every Put keeps the list a duplicate-free permutation of the map's keys and the size within the capacity |
| LruCache.MoveToFrontKeepsInvariant | src/data_structures/lru_cache.h:45-48 | moving a present key to the front keeps the invariant |
| LruCache.InsertFrontKeepsInvariant | src/data_structures/lru_cache.h:60-62 | inserting an absent key into a cache with room keeps the invariant |
| LruCache.PutExistingKey | src/data_structures/lru_cache.h:43-48 | Put of an existing key replaces its value and makes it most recent; no key is evicted |
| LruCache.PutEvictsLeastRecent | src/data_structures/lru_cache.h:52-62 | a new key at a full cache evicts exactly the back of the list and goes in at the front |
| LruCache.PutWithRoom | src/data_structures/lru_cache.h:59-62 | a new key with room to spare is added at the front and nothing is evicted |
| LruCache.GetMovesToFront | src/data_structures/lru_cache.h:74-86 | Get of a present key returns its value and makes it most recent; of an absent key it returns nothing and changes nothing |
| LruCache.EraseOnlyThatKey | src/data_structures/lru_cache.h:102-111 | Erase reports whether the key was there, removes only it, and keeps the order of the others |
| LruCache.ReverseSnoc | tests/data_structures/lru_cache_test.cc:34-71 | reversing a list with one more key puts that key first |
| LruCache.ReverseMembers | tests/data_structures/lru_cache_test.cc:34-71 | reversal keeps the set of keys |
| LruCache.ReverseDistinct | tests/data_structures/lru_cache_test.cc:34-71 | reversal keeps a list duplicate-free |
| LruCache.PutAll | tests/data_structures/lru_cache_test.cc:123-157 | any history of Puts keeps the invariant |
| LruCache.PutAllSnoc | tests/data_structures/lru_cache_test.cc:123-157 | a history of Puts is applied left to right |
| LruCache.DistinctPutsKeepNewest | tests/data_structures/lru_cache_test.cc:123-157 | distinct keys put into an empty cache leave exactly the last `capacity` of them, most recent first |
| LruCache.PutOneMoreDistinct | src/data_structures/lru_cache.h:52-62 | one more distinct Put moves the kept window of keys by one once the cache is full |
| LruCache.PutFitsWindow | src/data_structures/lru_cache.h:59-62 | while there is room, a distinct Put extends the window at the front |
| LruCache.PutSlidesWindow | src/data_structures/lru_cache.h:52-62 | once full, a distinct Put drops the oldest kept key |
| LruCache.WindowAfterEviction | src/data_structures/lru_cache.h:52-60 | eviction followed by a push at the front is the window slid by one key |
| LruCache.LRUCache.constructor | src/data_structures/lru_cache.h:29 | an empty cache of the given capacity |
| LruCache.LRUCache.Put | src/data_structures/lru_cache.h:41-64 | the new state is the Put transition of the old one; the invariant is kept |
| LruCache.LRUCache.Get | src/data_structures/lru_cache.h:74-86 | the new state and the result are the Get transition of the old state |
| LruCache.LRUCache.Contains | src/data_structures/lru_cache.h:93-95 | true exactly when the key is cached |
| LruCache.LRUCache.Erase | src/data_structures/lru_cache.h:102-111 | the new state and the result are the Erase transition of the old state |
| LruCache.LRUCache.Size | src/data_structures/lru_cache.h:117-119 | the number of entries, never above the capacity |
| LruCache.LRUCache.Clear | src/data_structures/lru_cache.h:132-135 | no key remains and the capacity stays |
| LruCache.ReadProtectsFromEviction | tests/data_structures/lru_cache_test.cc:47-57 | after a read at a full cache of capacity 2 or more, a new key evicts the least recently used of the other keys and the key just read stays |
| ThreadSafeQueues.ThreadSafeQueue.constructor | src/data_structures/thread_safe_queue.h:27 | an empty queue |
| ThreadSafeQueues.ThreadSafeQueue.Push | src/data_structures/thread_safe_queue.h:43-49 | the value joins the back of the queue |
| ThreadSafeQueues.ThreadSafeQueue.PopUnlocked | src/data_structures/thread_safe_queue.h:118-122 | returns the front and removes it |
| ThreadSafeQueues.ThreadSafeQueue.TryPop | src/data_structures/thread_safe_queue.h:55-62 | on an empty queue, nothing and no change; otherwise the front, removed |
| ThreadSafeQueues.ThreadSafeQueue.Pop | src/data_structures/thread_safe_queue.h:68-72 | once the queue is non-empty, returns the front and removes it |
| ThreadSafeQueues.ThreadSafeQueue.PopWithTimeout | src/data_structures/thread_safe_queue.h:80-87 | as TryPop when no producer runs during the wait |
| ThreadSafeQueues.ThreadSafeQueue.Empty | src/data_structures/thread_safe_queue.h:93-96 | true exactly when the size is 0 |
| ThreadSafeQueues.ThreadSafeQueue.Size | src/data_structures/thread_safe_queue.h:102-105 | the number of queued elements |
| ThreadSafeQueues.ThreadSafeQueue.Clear | src/data_structures/thread_safe_queue.h:110-114 | the queue becomes empty |
| ThreadSafeQueues.PushAllThenDrain | tests/data_structures/thread_safe_queue_test.cc:12-37 | pushing a sequence and popping until empty returns it in the same order, and the next TryPop finds nothing |
| ThreadSafeQueues.ClearThenTryPop | tests/data_structures/thread_safe_queue_test.cc:133-149 | after Clear the queue is empty, has size 0, and TryPop finds nothing |
| CustomObjects.LexLessIrreflexive | src/data_structures/custom_object.h:61 | no string is less than itself under std::string's `<` |
| CustomObjects.LexLessTransitive | src/data_structures/custom_object.h:61 | std::string's `<` is transitive |
| CustomObjects.LexLessTrichotomy | src/data_structures/custom_object.h:61 | two strings are equal or ordered one way, and only one of these holds |
| CustomObjects.CustomObject.constructor | src/data_structures/custom_object.h:18-20 | stores the name and the value |
| CustomObjects.CustomObject.Copy | src/data_structures/custom_object.h:25-29 | the copy has the original's fields and compares equal to it |
| CustomObjects.CustomObject.Assign | src/data_structures/custom_object.h:30-34 | takes over both fields of the other object |
| CustomObjects.CustomObject.SetName | src/data_structures/custom_object.h:49 | only the name changes |
| CustomObjects.CustomObject.SetValue | src/data_structures/custom_object.h:50 | only the value changes |
| CustomObjects.CustomObject.GetName | src/data_structures/custom_object.h:46 | returns the stored name |
| CustomObjects.CustomObject.GetValue | src/data_structures/custom_object.h:47 | returns the stored value |
| CustomObjects.CustomObject.Equals | src/data_structures/custom_object.h:54-56 | `==` holds exactly when neither object is less than the other |
| CustomObjects.CustomObject.NotEquals | src/data_structures/custom_object.h:57-59 | `!=` holds exactly when one of the two objects is less than the other |
| CustomObjects.CustomObject.Less | src/data_structures/custom_object.h:60-62 | a smaller value decides `<`, and `<` never holds against a smaller value |
| CustomObjects.CustomObject.Greater | src/data_structures/custom_object.h:63-65 | `>` excludes `<` and `==`, and holds exactly when the objects differ and `<` does not hold |
| CustomObjects.CustomObject.LessEq | src/data_structures/custom_object.h:66-68 | `<=` is `<` or `==` |
| CustomObjects.CustomObject.GreaterEq | src/data_structures/custom_object.h:69-71 | `>=` is `>` or `==` |
| CustomObjects.EqualityIsFieldwise | src/data_structures/custom_object.h:54-59 | `==` is equality of both fields, and `!=` is its negation |
| CustomObjects.LessIrreflexive | src/data_structures/custom_object.h:60-62 | no object is less than itself |
| CustomObjects.LessTransitive | src/data_structures/custom_object.h:60-62 | the value-then-name order is transitive |
| CustomObjects.LessTrichotomy | src/data_structures/custom_object.h:60-62 | exactly one of less, equal and greater holds for two objects |
| CustomObjects.DerivedComparisons | src/data_structures/custom_object.h:63-71 | `>` is the reversed `<`; `<=` is less or equal; `>=` is greater or equal |
| CustomObjects.CopyIsIndependent | tests/data_structures/custom_object_test.cc:27-40 | changing a copy through its setters leaves the original alone |
| CounterUtils.Occurrences | src/utils/counter_utils.h:31 | the number of counted elements whose extracted key is `key`, at most the number counted |
| CounterUtils.TallyCounts | src/utils/counter_utils.h:31 | after counting a sequence, each key's count is its number of occurrences, and a key is present exactly when it occurs |
| CounterUtils.TallyPositive | src/utils/counter_utils.h:49 | every key in the map has a count of at least 1 |
| CounterUtils.TallyTotal | src/utils/counter_utils.h:31 | the counts add up to the number of elements counted |
| CounterUtils.TallyAgrees | src/utils/counter_utils.h:37 | the map holds exactly the keys that occur, each with its number of occurrences |
| CounterUtils.SumCountsIncrement | src/utils/counter_utils.h:31 | one `++` on a key's count, present or new, adds one to the total |
| CounterUtils.LeastKeyExists | src/utils/counter_utils.h:41 | a non-empty key set has a least key, the next one std::map visits |
| CounterUtils.CounterTp.constructor | src/utils/counter_utils.h:24 | nothing counted yet; the extractor is stored |
| CounterUtils.CounterTp.Count | src/utils/counter_utils.h:31 | the extracted key's count goes up by one, and a new key starts at 1 |
| CounterUtils.CounterTp.GetCountMap | src/utils/counter_utils.h:37 | every key present maps to its number of occurrences, at least 1; absent keys never occurred |
| CounterUtils.CounterTp.GetReverseByValue | src/utils/counter_utils.h:38-46 | one pair per map entry, in ascending key order, each with that key's count |
| CounterUtils.ListingStep | src/utils/counter_utils.h:41-44 | appending the least remaining key keeps the listing ascending and complete up to the keys still remaining |
| CounterUtils.ListingDone | src/utils/counter_utils.h:45 | with no key remaining, the listing is ascending and lists every entry exactly once |
| CounterUtils.CountAll | src/utils/counter_utils.h:31-46 | counting a sequence and listing it gives ascending keys, each with its number of occurrences, and every element's key appears |
| CounterUtils.OccursOnce | src/utils/counter_utils.h:31 | an element that was counted has a key occurring at least once |
| StringUtils.Pieces | src/utils/string_utils.cc:19-32 | there is always at least one piece |
| StringUtils.Split | src/utils/string_utils.cc:11-35 | nothing for empty input; otherwise the pieces between delimiters, empty ones included |
| StringUtils.PiecesCount | src/utils/string_utils.cc:21-32 | there is one piece more than there are delimiters |
| StringUtils.PiecesAvoidDelimiter | src/utils/string_utils.cc:22-28 | no piece contains the delimiter |
| StringUtils.SplitShape | src/utils/string_utils.cc:11-35 | empty input gives nothing; otherwise (delimiters + 1) pieces, none holding the delimiter |
| StringUtils.Join | src/utils/string_utils.cc:37-50 | the strings with exactly one delimiter between neighbours, none leading or trailing |
| StringUtils.JoinLength | src/utils/string_utils.cc:41-47 | the joined length is the total length plus one delimiter per gap |
| StringUtils.PiecesSnoc | src/utils/string_utils.cc:21-29 | a delimiter opens a new piece; any other character extends the last one |
| StringUtils.PiecesAfterDelimiter | src/utils/string_utils.cc:21-32 | a delimiter followed by delimiter-free text adds that text as one more piece |
| StringUtils.JoinPieces | src/utils/string_utils.cc:11-50 | joining the pieces with the delimiter restores the text |
| StringUtils.SplitJoinRoundTrip | src/utils/string_utils.cc:11-50 | Join of Split restores every input, the empty one included |
| StringUtils.PiecesOfSingle | src/utils/string_utils.cc:21-32 | delimiter-free text is one piece |
| StringUtils.PiecesOfJoin | src/utils/string_utils.cc:11-50 | splitting a join of delimiter-free strings gives them back |
| StringUtils.StartOf | src/utils/string_utils.cc:53-56 | the first non-space position: everything before it is space |
| StringUtils.EndOf | src/utils/string_utils.cc:58-61 | one past the last non-space position from start on: everything after it is space |
| StringUtils.Trim | src/utils/string_utils.cc:52-64 | returns the text without leading and trailing whitespace |
| StringUtils.TrimmedIsCore | src/utils/string_utils.cc:52-64 | the trimmed text is a slice of the input that neither starts nor ends with space, and all that was cut is space |
| StringUtils.TrimIdempotent | src/utils/string_utils.cc:52-64 | trimming twice is trimming once |
| StringUtils.LowerChar | src/utils/string_utils.cc:69 | an upper-case letter becomes its lower-case letter; anything else is kept |
| StringUtils.UpperChar | src/utils/string_utils.cc:76 | a lower-case letter becomes its upper-case letter; anything else is kept |
| StringUtils.ToLower | src/utils/string_utils.cc:66-71 | same length; only upper-case letters change, each to its lower-case letter; no upper-case letter remains |
| StringUtils.ToUpper | src/utils/string_utils.cc:73-78 | same length; only lower-case letters change, each to its upper-case letter; no lower-case letter remains |
| StringUtils.CaseMappingLaws | src/utils/string_utils.cc:66-78 | case mapping is idempotent, and mapping one way then the other equals mapping the other way directly |
| StringUtils.StartsWith | src/utils/string_utils.cc:80-82 | true exactly when `prefix` is a prefix of the text |
| StringUtils.EndsWith | src/utils/string_utils.cc:84-87 | true exactly when `suffix` is what remains after dropping some prefix of the text |
| StringUtils.EmptyAndOverlong | src/utils/string_utils.cc:80-87 | the empty prefix and suffix always match; a longer argument never does |
| StringUtils.FindFrom | src/utils/string_utils.cc:97 | the first occurrence at or after `from`, or none when there is none |
| StringUtils.ReplaceAllSkip | src/utils/string_utils.cc:97-100 | the text before the first occurrence is kept, the occurrence becomes `to`, and the scan resumes after it |
| StringUtils.ReplaceAllNone | src/utils/string_utils.cc:97 | text without an occurrence is unchanged |
| StringUtils.OccursInSuffix | src/utils/string_utils.cc:97 | an occurrence in a suffix is an occurrence in the text, shifted |
| StringUtils.Replace | src/utils/string_utils.cc:89-110 | an empty `from` changes nothing; otherwise the first occurrence, or with replaceAll every occurrence left to right without rescanning inserted text, becomes `to` |
| StringUtils.ReplaceStep | src/utils/string_utils.cc:97-100 | one replacement in the loop keeps the result's correspondence with the left-to-right replacement of the input |
| StringUtils.ReplaceDone | src/utils/string_utils.cc:97 | when find fails, the loop has produced the full replacement |
| StringUtils.ReplaceAllIdentity | src/utils/string_utils.cc:96-100 | replacing a text by itself changes nothing |
| StringUtils.LeadingDigits | src/utils/string_utils.cc:130 | the length of the run of digits at the start |
| StringUtils.Stoi | src/utils/string_utils.cc:130 | std::stoi: a value only for text that starts as a numeral after at most one sign; the value is within int and is negative only after a '-' |
| StringUtils.ToInt | src/utils/string_utils.cc:112-135 | the result std::stoi gives for the trimmed text, after the empty, blank and character checks |
| StringUtils.ToIntRejects | src/utils/string_utils.cc:113-127 | empty or blank input, or a character other than a digit or a sign, gives nothing |
| StringUtils.StrictToInt | src/utils/string_utils.h:81-86 | a value exactly when the trimmed text is a whole numeral within int, and then the numeral's value |
| StringUtils.StrictAgreesOnNumerals | src/utils/string_utils.cc:112-135 | on a whole numeral, ToInt and the strict reading agree |
| StringUtils.ToIntAcceptsTrailingSign | src/utils/string_utils.cc:123-130 | "12-3" converts to 12, where the strict reading rejects it |
| StringUtils.ToDouble | src/utils/string_utils.cc:137-185 | a result exactly when the trimmed text is non-empty and passes the validator; then it is the trimmed text given to std::stod |
| Statistics.Sum | src/math/statistics.h:161-164 | the fold of `+` from 0: no values sum to 0, one value sums to itself, and non-negative values give a non-negative sum |
| Statistics.Product | src/math/statistics.h:172-176 | the fold of `*` from 1: no values multiply to 1, non-negative values give a non-negative product and non-zero values a non-zero one |
| Statistics.SumConcat | src/math/statistics.h:161-164 | the sum of a concatenation is the sum of the sums |
| Statistics.SumPermutation | src/math/statistics.h:161-164 | the sum does not depend on the order of the values |
| Statistics.SumWithin | src/math/statistics.h:161-164 | n values within [lo, hi] sum to between n·lo and n·hi |
| Statistics.ProductConcat | src/math/statistics.h:172-176 | the product of a concatenation is the product of the products |
| Statistics.ProductZero | src/math/statistics.h:172-176 | the product is 0 exactly when some value is 0 |
| Statistics.Range | src/math/statistics.h:145-153 | none exactly for empty input; otherwise both ends are values of the input and bound every value |
| Statistics.Mean | src/math/statistics.h:25-33 | none exactly for empty input; otherwise between the minimum and the maximum |
| Statistics.MeanOfConstant | src/math/statistics.h:25-33 | the mean of equal values is that value |
| Statistics.SquaredDeviations | src/math/statistics.h:112-115 | the accumulated squared deviations are non-negative |
| Statistics.SquaredDeviationsAtValue | src/math/statistics.h:112-115 | values all equal to the mean have zero squared deviation |
| Statistics.VarianceOf | src/math/statistics.h:98-119 | none exactly for fewer than 2 values; otherwise non-negative |
| Statistics.VarianceOfConstant | src/math/statistics.h:98-119 | equal values have variance 0 |
| Statistics.Variance | src/math/statistics.h:98-119 | none exactly for fewer than 2 values; the loop's accumulation gives the variance; `sample` defaults to true |
| Statistics.StandardDeviation | src/math/statistics.h:129-137 | none exactly when the variance is none; otherwise the non-negative number whose square is the variance; `sample` defaults to true |
| Statistics.CrossDeviationsSymmetric | src/math/statistics.h:209-216 | the accumulated cross deviations are symmetric in x and y |
| Statistics.CorrelationOf | src/math/statistics.h:187-223 | none exactly when the sizes differ or there are fewer than 2 values |
| Statistics.RootOfPositive | src/math/statistics.h:222 | the root of a product of two positive numbers is positive, so the division is defined |
| Statistics.CorrelationSymmetric | src/math/statistics.h:187-223 | the correlation of x with y is the correlation of y with x |
| Statistics.CorrelationOfConstant | src/math/statistics.h:218-220 | a constant x gives correlation 0 |
| Statistics.Correlation | src/math/statistics.h:187-223 | none exactly when the sizes differ or there are fewer than 2 values; the loop's three accumulations give the correlation |
| Statistics.CountOccurrences | src/math/statistics.h:72-75 | the map holds exactly the values present, each with its number of occurrences |
| Statistics.MostFrequent | src/math/statistics.h:77-85 | the chosen value is in the map with a count no smaller than any other |
| Statistics.Mode | src/math/statistics.h:66-88 | none exactly for empty input; otherwise a value of the input occurring at least as often as every other |
| Statistics.SortedCopy | src/math/statistics.h:47 | the copy is sorted by `<` and a permutation of the values |
| Statistics.KthSmallestUnique | src/math/statistics.h:47-57 | the k-th smallest of integers is unique |
| Statistics.Median | src/math/statistics.h:41-58 | none exactly for empty input; otherwise the mean of the lower and upper middle elements in sorted order |
| Statistics.SortedMiddles | src/math/statistics.h:49-56 | positions (n-1)/2 and n/2 of the sorted copy hold the lower and upper middle elements of the input |
| Statistics.MedianUnique | src/math/statistics.h:41-58 | the median of a sequence is unique |
| Statistics.MedianWithin | src/math/statistics.h:41-58 | the median lies between the minimum and the maximum |
| Statistics.MedianOfOddIsValue | src/math/statistics.h:54-56 | with an odd count, the median is one of the values |
| Statistics.Position | src/math/statistics.h:261 | the fractional index p/100·(n-1) lies within [0, n-1] |
| Statistics.PositionMonotone | src/math/statistics.h:261 | the fractional index grows with p |
| Statistics.Interpolate | src/math/statistics.h:261-274 | at a whole position, the element there; otherwise a value between the elements at floor and ceiling of the position |
| Statistics.PercentileOf | src/math/statistics.h:251-275 | p = 0 gives the first element and p = 100 the last, and both agree with the interpolation at p/100·(n-1) that every other p uses |
| Statistics.PercentileIsInterpolation | src/math/statistics.h:252-274 | the special cases for 0 and 100 agree with the interpolation |
| Statistics.InterpolateBetween | src/math/statistics.h:262-273 | the interpolated value lies between the two neighbouring elements, and is the element itself on a direct hit |
| Statistics.InterpolateMonotone | src/math/statistics.h:262-273 | on sorted data, interpolation grows with the index |
| Statistics.PercentileWithin | src/math/statistics.h:251-275 | every percentile of sorted data lies between its first and its last element |
| Statistics.PercentileMonotone | src/math/statistics.h:251-275 | a larger p never gives a smaller percentile |
| Statistics.PercentileFiftyIsMedian | tests/math/statistics_test.cc:248-287 | the 50th percentile is the median |
| Statistics.SortedEnds | src/math/statistics.h:253-257 | the sorted copy starts with the minimum, ends with the maximum, and is non-decreasing |
| Statistics.PercentileResults | src/math/statistics.h:251-277 | the results lie within [min, max], p = 0 gives the minimum, p = 100 the maximum, p = 50 the median, and they grow with p |
| Statistics.Percentiles | src/math/statistics.h:232-278 | none exactly for empty values, no percentiles, or a p outside [0, 100]; otherwise one result per p, within [min, max], the minimum at 0, the maximum at 100, the median at 50, and non-decreasing in p |

## Left out

- Floating point. The statistics compute with exact reals, so rounding, overflow to infinity and NaN are not modelled. A NaN percentile would slip past the range check at statistics.h:241; it is not representable here.
- std::sqrt is a parameter `sqrt` that is only required to return the non-negative square root of a non-negative argument.
- The statistics take integer values only; the templates over other numeric types are not modelled.
- Statistics.Sum and Statistics.Product do not model the overflow of the accumulator type T; they are unbounded integer folds.
- Statistics.SortedCopy uses InsertionSorts.InsertionSort with `<` in place of std::sort. Only the sorted permutation it returns is used.
- Statistics.Mode: std::unordered_map's iteration order is unspecified. The model promises a value of maximal count, whichever the iteration meets first.
- StringUtils.ToDouble does not model std::stod's conversion to a double. It returns the validated trimmed text that would be converted. The exception std::stod throws for out-of-range text is not modelled either.
- StringUtils.ToInt models std::stoi with an optional sign, the longest run of digits, and the int range. Leading whitespace inside the text is already trimmed.
- Character classes (std::isspace, std::isdigit, std::tolower, std::toupper) are those of the C locale. A char stands for one byte; no encoding is modelled.
- ThreadSafeQueue is modelled sequentially. Mutexes, the condition variable and blocking are not modelled. Pop requires a non-empty queue, which stands for the wait until a producer pushes. PopWithTimeout takes the timeout as a number and behaves as TryPop, since no other thread pushes during the wait.
- The copy and assignment operators of ThreadSafeQueue are deleted in the source and do not exist here.
- CustomObject's printing to std::cout in each constructor, destructor, assignment and Print is left out.
- CustomObjects.CustomObject.Assign returns nothing. The source's assignment operators end without a return statement (custom_object.h:30-44).
- Moves share the model of copies. The moved-from state of `other` after a move is unspecified in the source, so the model leaves it alone.
- CounterTp's key type is `int`. std::map's key order is then `<` on int, and the counts are unbounded, with no int32_t wrap-around. The key extractor is a function parameter of the class.
- LruCache.LRUCache.Put requires a capacity of at least 1. With capacity 0, the source reads the back of an empty list (lru_cache.h:54), which is undefined behaviour.
- LruCache.LRUCache.Capacity is a plain accessor with no contract worth stating.
- The LRU cache's std::unordered_map is a Dafny map. Each entry's list iterator is the key's position in the recency list, so iterator invalidation is not modelled.
- InsertionSorts.InsertOne: the source's shifting loop (sorting.h:243-246) decrements its iterator to one before `first` whenever the key is less than the element at `first`, as for [2, 1]. For a vector's begin() that decrement is undefined behaviour. The model uses a signed index and stops at first - 1, as the loop evidently intends.
- HeapSorts.Heapify models the sift-down the source evidently intends. The source's `heapify` lambda calls itself through an `auto` variable whose type is still being deduced, so it does not compile as written.
- The sorts take index ranges of one array in place of iterator pairs. The comparator is a total function and is assumed to be a strict weak order.
- HeapSort and QuickSelect index with signed int in the source (sorting.h:171-201, 285-316). Ranges beyond the int range are not modelled.
- CountingSorts.CountingSort requires every element to lie in [0, max_value] when there are two or more elements. On such inputs the source has three error paths; the requires drops the first two, and the model does not represent the third:
  - With max_value <= -2, `max_value + 1` is negative and converts to a huge size at sorting.cc:20. The count buffer's construction then throws (std::length_error, or an allocation failure) before any element is read.
  - With max_value >= -1 and an element outside [0, max_value], the counting loop indexes outside the buffer, which is undefined behaviour. This includes every input under the default max_value of -1, whose buffer is empty.
  - With max_value equal to INT_MAX, `max_value + 1` itself overflows int, which is undefined behaviour. The model's max_value is unbounded, so that overflow is not represented.
- CountingSorts.RadixSort requires that no negative element appears together with a positive one. With no positive element no pass runs and the data is left as it was. The source's `/` and `%` truncate toward zero, so beside a positive element a negative one behaves in two ways. If one of its visited digits is not 0, it indexes outside the count buffer, which is undefined behaviour: [-5, 1] gives the digit -5. If all of its visited digits are 0, the source accepts it, but the result need not be sorted: [-10, 5, -20] ends [-10, -20, 5]. The requires excludes both kinds of input.
- CountingSorts.RadixSort computes `exp` as an unbounded integer. The int32 overflow of `exp *= 10` is shown separately, under Findings.
- src/utils/file_utils.cc and file_utils.h are not part of this model. Neither are the examples and test drivers, beyond the test cases cited in the table.

## Findings

| source | as written | input that shows it | evidently intended | confidence | as-written member | corrected member |
|---|---|---|---|---|---|---|
| src/algorithms/sorting.h:316-319 | QuickSelectIterator finds the index on a partitioned copy, but returns the untouched input advanced by that index, which is always k, so QuickSelect returns data[k] | data = [2, 1], k = 0 returns 2 | the k-th smallest element, 1, as the documentation at sorting.h:322-331 states | not executed | QuickSorts.QuickSelectReturnsPosition | QuickSorts.QuickSelectCorrected |
| src/algorithms/sorting.h:401 | the default max_value of -1 makes the count buffer empty, so every input of two or more elements indexes outside it | data = [0, 0] with max_value omitted | compute the maximum from the data, as the declaration's comment says | not executed | CountingSorts.DefaultMaxValueRejectsAll | CountingSorts.CountingSortDefault |
| src/algorithms/sorting.cc:56 | `exp *= 10` on an int overflows once exp is 10^9, which happens for any element of at least 10^9 | data = [1000000000] | the loop ends after the last digit without overflow; the model's `exp` is unbounded | not executed | CountingSorts.RadixExpOverflows | CountingSorts.RadixSort |
| src/utils/string_utils.cc:123-130 | the character check lets a sign through anywhere, and std::stoi stops at the first non-digit, so trailing text after a sign is ignored | "12-3" converts to 12 | reject text that is not a whole numeral | not executed | StringUtils.ToIntAcceptsTrailingSign | StringUtils.StrictToInt |
