/**
 The hash-map exercises of practise_problems/objects.practise.js, on arrays of
 integers: frequency counting, duplicate detection with an object and with a
 `Map`, anagram grouping, two-sum and most-frequent element. An object filled
 with number keys enumerates them in the order `IntKeyOrder` gives; a `Map`
 enumerates its keys in insertion order.
 */
module ObjectsPractise {
  import opened Common
  import opened JsObjects
  import opened Anagrams

  // ---------------------------------------------------------------------------
  // Q1 / step 1 of Q2 and Q5: the frequency table
  // ---------------------------------------------------------------------------

  /** Q1 `countFrequency`: the empty array gives `{}`, any other array its frequency table. */
  method CountFrequency(arr: seq<int>) returns (r: InsertionMap<int, nat>)
    ensures r.Valid()
    ensures forall x :: x in r.vals <==> x in arr
    ensures forall x | x in r.vals :: r.vals[x] == Count(arr, x) && r.vals[x] > 0
    ensures r.keys == Dedup(arr)
  {
    if |arr| == 0 {
      return EmptyMap();
    }
    r := CountTable(arr);
  }

  /** The counts of `countFrequency` add up to the length of the input. */
  lemma {:induction false} CountFrequencyTotal(arr: seq<int>)
    ensures forall k | k in Dedup(arr) :: k in Frequency(arr)
    ensures SumOver(Dedup(arr), Frequency(arr)) == |arr|
  {
    FrequencyTotal(arr);
  }

  // ---------------------------------------------------------------------------
  // Q2: duplicates
  // ---------------------------------------------------------------------------

  /** The test `freq[key] > 1`, as a predicate on values. */
  function RepeatedIn(arr: seq<int>): int -> bool
  {
    x => Count(arr, x) > 1
  }

  /** The values that occur more than once, listed by first occurrence (the `Map` order). */
  function Duplicates(arr: seq<int>): (d: seq<int>)
    ensures forall x :: x in d <==> Count(arr, x) > 1
    ensures Distinct(d)
  {
    RepeatedValues(arr);
    Filter(Dedup(arr), RepeatedIn(arr))
  }

  /** Filtering the distinct values by "counted twice or more" keeps exactly the repeated values, once each. */
  lemma {:induction false} RepeatedValues(arr: seq<int>)
    ensures forall x :: x in Filter(Dedup(arr), RepeatedIn(arr)) <==> Count(arr, x) > 1
    ensures Distinct(Filter(Dedup(arr), RepeatedIn(arr)))
  {
    FilterMembers(Dedup(arr), RepeatedIn(arr));
    forall x | Count(arr, x) > 1
      ensures x in Filter(Dedup(arr), RepeatedIn(arr))
    {
      RepeatedKept(arr, x);
    }
    FilterPairwise(Dedup(arr), RepeatedIn(arr), (a: int, b: int) => a != b);
  }

  /** A value counted twice or more survives the filter. */
  lemma {:induction false} RepeatedKept(arr: seq<int>, x: int)
    requires Count(arr, x) > 1
    ensures x in Filter(Dedup(arr), RepeatedIn(arr))
  {
    var d := Filter(Dedup(arr), RepeatedIn(arr));
    assert x in multiset(arr);
    assert x in Dedup(arr);
    FilterCount(Dedup(arr), RepeatedIn(arr), x);
    assert x in multiset(d);
  }

  /** Step 2 of both versions: walk the keys in enumeration order and keep those counted twice or more. */
  method CollectRepeated(arr: seq<int>, freq: map<int, nat>, keys: seq<int>) returns (r: seq<int>)
    requires freq == Frequency(arr)
    requires forall i | 0 <= i < |keys| :: keys[i] in arr
    ensures r == Filter(keys, RepeatedIn(arr))
  {
    r := [];
    for i := 0 to |keys|
      invariant r == Filter(keys[..i], RepeatedIn(arr))
    {
      assert keys[..i + 1][..i] == keys[..i];
      assert keys[..i + 1][i] == keys[i];
      if freq[keys[i]] > 1 {
        r := r + [keys[i]];
      }
    }
    assert keys[..|keys|] == keys;
  }

  /** Q2 M-2 `findDuplicates`: scans the `Map` in insertion order. */
  method FindDuplicates(arr: seq<int>) returns (r: seq<int>)
    ensures r == Duplicates(arr)
  {
    var freq := CountTable(arr);
    r := CollectRepeated(arr, freq.vals, freq.keys);
  }

  /** `FindDuplicates` lists each duplicated value at the place of its first occurrence. */
  lemma {:induction false} DuplicatesFirstOccurrenceOrder(arr: seq<int>)
    ensures forall i, j | 0 <= i < j < |Duplicates(arr)| ::
      Duplicates(arr)[i] in arr && Duplicates(arr)[j] in arr &&
      FirstIndex(arr, Duplicates(arr)[i]) < FirstIndex(arr, Duplicates(arr)[j])
  {
    DedupFirstOccurrenceOrder(arr);
    var d := Dedup(arr);
    var rel := (a: int, b: int) => a in arr && b in arr && FirstIndex(arr, a) < FirstIndex(arr, b);
    forall i, j | 0 <= i < j < |d|
      ensures rel(d[i], d[j])
    {
      assert d[i] in arr && d[j] in arr;
    }
    FilterPairwise(d, RepeatedIn(arr), rel);
    assert Duplicates(arr) == Filter(d, RepeatedIn(arr));
  }

  /** Q2 M-1 `findDuplicates1`: scans the object with `for…in`, so the index
      keys come first in ascending order. */
  method FindDuplicates1(arr: seq<int>) returns (r: seq<int>)
    ensures r == Filter(IntKeyOrder(Dedup(arr)), RepeatedIn(arr))
  {
    var freq := CountTable(arr);
    var keys := IntKeyOrder(freq.keys);
    forall i | 0 <= i < |keys|
      ensures keys[i] in arr
    {
      assert keys[i] in multiset(freq.keys);
    }
    r := CollectRepeated(arr, freq.vals, keys);
  }

  /** The object version finds the same values as the `Map` version: it lists
      the array-index values first, ascending, and the others in the `Map` order. */
  lemma {:induction false} FindDuplicatesVersionsAgree(arr: seq<int>)
    ensures var d1 := Filter(IntKeyOrder(Dedup(arr)), RepeatedIn(arr));
      && multiset(d1) == multiset(Duplicates(arr))
      && Filter(d1, IsNotIndexInt) == Filter(Duplicates(arr), IsNotIndexInt)
      && Filter(d1, IsIndexInt) == SortBy(Filter(Duplicates(arr), IsIndexInt), IntValue)
  {
    var p := RepeatedIn(arr);
    var o := IntKeyOrder(Dedup(arr));
    assert Duplicates(arr) == Filter(Dedup(arr), p);
    FilterPermutation(Dedup(arr), o, p);
    IntKeyOrderParts(Dedup(arr));
    FilterCommute(o, p, IsNotIndexInt);
    FilterCommute(Dedup(arr), p, IsNotIndexInt);
    FilterCommute(o, p, IsIndexInt);
    FilterCommute(Dedup(arr), p, IsIndexInt);
    SortFilterCommute(Filter(Dedup(arr), IsIndexInt), p);
  }

  /** Filtering two permutations of each other gives permutations of each other. */
  lemma {:induction false} FilterPermutation(a: seq<int>, b: seq<int>, p: int -> bool)
    requires multiset(a) == multiset(b)
    ensures multiset(Filter(a, p)) == multiset(Filter(b, p))
  {
    forall x
      ensures multiset(Filter(a, p))[x] == multiset(Filter(b, p))[x]
    {
      FilterCount(a, p, x);
      FilterCount(b, p, x);
    }
  }

  /** Sorting integers and then filtering equals filtering and then sorting. */
  lemma {:induction false} SortFilterCommute(s: seq<int>, p: int -> bool)
    ensures Filter(SortBy(s, IntValue), p) == SortBy(Filter(s, p), IntValue)
  {
    var a := Filter(SortBy(s, IntValue), p);
    var b := SortBy(Filter(s, p), IntValue);
    FilterPermutation(SortBy(s, IntValue), s, p);
    FilterPairwise(SortBy(s, IntValue), p, (x: int, y: int) => IntValue(x) <= IntValue(y));
    SortedUnique(a, b, IntValue);
  }

  // ---------------------------------------------------------------------------
  // Q3: anagram groups
  // ---------------------------------------------------------------------------

  /** Q3 M-1 `groupAnagrams`: `Object.values` of an object keyed by the comma-joined sorted letters. */
  function GroupAnagrams(words: seq<string>): (gs: seq<seq<string>>)
    ensures multiset(Concat(gs)) == multiset(words)
    ensures forall i | 0 <= i < |gs| :: |gs[i]| > 0
  {
    var m := GroupBy(words, CommaKey);
    var order := StringKeyOrder(m.keys);
    GroupingProperties(words, CommaKey, order);
    GroupsOf(m.vals, order)
  }

  /** Q3 M-2 `groupAnagrams1`: `Array.from(map.values())` of a `Map`, in insertion order. */
  function GroupAnagrams1(words: seq<string>): (gs: seq<seq<string>>)
    ensures multiset(Concat(gs)) == multiset(words)
    ensures forall i | 0 <= i < |gs| :: |gs[i]| > 0
  {
    var m := GroupBy(words, CommaKey);
    GroupingProperties(words, CommaKey, m.keys);
    GroupsOf(m.vals, m.keys)
  }

  /** The test "is an anagram of `w`". */
  function AnagramOf(w: string): string -> bool
  {
    v => multiset(v) == multiset(w)
  }

  /** Each group of `GroupAnagrams` holds exactly the input's anagrams of any of its words, in input order. */
  lemma {:induction false} GroupAnagramsAreAnagramClasses(words: seq<string>, i: nat, w: string)
    requires i < |GroupAnagrams(words)| && w in GroupAnagrams(words)[i]
    ensures w in words
    ensures GroupAnagrams(words)[i] == Filter(words, AnagramOf(w))
  {
    var m := GroupBy(words, CommaKey);
    var order := StringKeyOrder(m.keys);
    GroupingProperties(words, CommaKey, order);
    assert GroupAnagrams(words)[i] == Members(words, CommaKey, order[i]);
    MembersAreAnagrams(words, w, order[i]);
  }

  /** Filing by the comma key is filtering for anagrams of any word with that key. */
  lemma {:induction false} MembersAreAnagrams(words: seq<string>, w: string, k: string)
    requires CommaKey(w) == k
    ensures Members(words, CommaKey, k) == Filter(words, AnagramOf(w))
    decreases |words|
  {
    if |words| > 0 {
      var v := words[|words| - 1];
      MembersAreAnagrams(words[..|words| - 1], w, k);
      CommaKeyIffAnagram(v, w);
    }
  }

  /** For words of letters only the object has no array-index keys, so both versions agree. */
  lemma {:induction false} GroupAnagramsVersionsAgree(words: seq<string>)
    requires forall i, j | 0 <= i < |words| && 0 <= j < |words[i]| :: IsLetter(words[i][j])
    ensures GroupAnagrams(words) == GroupAnagrams1(words)
  {
    var m := GroupBy(words, CommaKey);
    GroupByKeys(words, CommaKey);
    forall i | 0 <= i < |m.keys|
      ensures !IsIndexKey(m.keys[i])
    {
      assert m.keys[i] in KeysOf(words, CommaKey);
      var j :| 0 <= j < |words| && KeysOf(words, CommaKey)[j] == m.keys[i];
      LetterWordKeysAreNotIndices(words[j]);
    }
    NoIndexKeysKeepInsertionOrder(m.keys);
  }

  // ---------------------------------------------------------------------------
  // Q4: two sum
  // ---------------------------------------------------------------------------

  /** `arr[j] + arr[i] == target` for an earlier index `j`. */
  predicate IsPair(arr: seq<int>, target: int, j: int, i: int)
  {
    0 <= j < i < |arr| && arr[j] + arr[i] == target
  }

  /** The answer both versions return: the first `i` completing a pair, with the
      last `j` before it that completes it (a later equal value overwrites the stored index). */
  predicate IsFirstPair(arr: seq<int>, target: int, j: int, i: int)
  {
    && IsPair(arr, target, j, i)
    && (forall k | j < k < i :: arr[k] + arr[i] != target)
    && (forall i', j' | 0 <= j' < i' < i :: arr[j'] + arr[i'] != target)
  }

  predicate NoPair(arr: seq<int>, target: int)
  {
    forall i, j | 0 <= j < i < |arr| :: arr[j] + arr[i] != target
  }

  /** `seen` maps every value among the first `n` elements to the last index holding it. */
  predicate LastIndexTable(arr: seq<int>, n: nat, seen: map<int, nat>)
    requires n <= |arr|
  {
    && (forall j | 0 <= j < n :: arr[j] in seen)
    && (forall v | v in seen :: seen[v] < n && arr[seen[v]] == v
          && forall k | seen[v] < k < n :: arr[k] != v)
  }

  /** The loop both versions share: look up `target - arr[i]`, else record `arr[i] -> i`. */
  method TwoSumScan(arr: seq<int>, target: int) returns (found: Option<(nat, nat)>, seen: map<int, nat>)
    ensures found.Some? ==> IsFirstPair(arr, target, found.value.0, found.value.1)
    ensures found.None? ==> NoPair(arr, target) && LastIndexTable(arr, |arr|, seen)
  {
    seen := map[];
    for i := 0 to |arr|
      invariant LastIndexTable(arr, i, seen)
      invariant forall i', j' | 0 <= j' < i' < i :: arr[j'] + arr[i'] != target
    {
      var remaining := target - arr[i];
      if remaining in seen {
        return Some((seen[remaining], i)), seen;
      }
      seen := seen[arr[i] := i];
    }
    found := None;
  }

  /** Q4 `twoSum` returns the index pair, or the table of seen values when there is none. */
  datatype TwoSumResult = Indices(first: nat, second: nat) | Table(seen: map<int, nat>)

  /** Q4 M-1 `twoSum` (object). */
  method TwoSum(arr: seq<int>, target: int) returns (r: TwoSumResult)
    ensures r.Indices? ==> IsFirstPair(arr, target, r.first, r.second)
    ensures r.Table? ==> NoPair(arr, target) && LastIndexTable(arr, |arr|, r.seen)
  {
    var found, seen := TwoSumScan(arr, target);
    if found.Some? {
      r := Indices(found.value.0, found.value.1);
    } else {
      r := Table(seen);
    }
  }

  /** Q4 M-2 `twoSum1` (`Map`): the empty array `[]` when there is no pair. */
  method TwoSum1(arr: seq<int>, target: int) returns (r: Option<(nat, nat)>)
    ensures r.Some? ==> IsFirstPair(arr, target, r.value.0, r.value.1)
    ensures r.None? ==> NoPair(arr, target)
  {
    var seen;
    r, seen := TwoSumScan(arr, target);
  }

  lemma {:induction false} TwoSumExamples()
    ensures IsFirstPair([2, 7, 11, 15], 9, 0, 1)
    ensures IsFirstPair([-3, 4, 3, 90], 0, 0, 2)
  {
  }

  // ---------------------------------------------------------------------------
  // Q5: most frequent
  // ---------------------------------------------------------------------------

  /** The second loop of `mostFrequent`: the first key with a count no later key exceeds. */
  method FirstMaxByCount(arr: seq<int>, freq: map<int, nat>, keys: seq<int>) returns (r: Option<int>, ghost at: nat)
    requires freq == Frequency(arr)
    requires forall i | 0 <= i < |keys| :: keys[i] in arr
    ensures r.None? <==> |keys| == 0
    ensures r.Some? ==> at < |keys| && keys[at] == r.value
    ensures r.Some? ==> forall k | 0 <= k < |keys| :: Count(arr, keys[k]) <= Count(arr, r.value)
    ensures r.Some? ==> forall k | 0 <= k < at :: Count(arr, keys[k]) < Count(arr, r.value)
  {
    var maxCount := 0;
    r := None;
    at := 0;
    for i := 0 to |keys|
      invariant r.None? <==> i == 0
      invariant r.None? ==> maxCount == 0
      invariant r.Some? ==> at < i && keys[at] == r.value && maxCount == Count(arr, r.value)
      invariant r.Some? ==> forall k | 0 <= k < at :: Count(arr, keys[k]) < maxCount
      invariant forall k | 0 <= k < i :: Count(arr, keys[k]) <= maxCount
    {
      assert keys[i] in multiset(arr);
      assert freq[keys[i]] == Count(arr, keys[i]) > 0;
      if freq[keys[i]] > maxCount {
        maxCount := freq[keys[i]];
        r := Some(keys[i]);
        at := i;
      }
    }
  }

  /** Q5 `mostFrequent`: `null` for the empty array; otherwise the first key in
      `for…in` order whose count is maximal (a later key must beat it strictly). */
  method MostFrequent(arr: seq<int>) returns (r: Option<int>)
    ensures r.None? <==> |arr| == 0
    ensures r.Some? ==> r.value in arr && forall y | y in arr :: Count(arr, y) <= Count(arr, r.value)
    ensures r.Some? ==> exists i | 0 <= i < |IntKeyOrder(Dedup(arr))| ::
      IntKeyOrder(Dedup(arr))[i] == r.value &&
      forall k | 0 <= k < i :: Count(arr, IntKeyOrder(Dedup(arr))[k]) < Count(arr, r.value)
  {
    var freq := CountTable(arr);
    var keys := IntKeyOrder(freq.keys);
    KeyOrderMembers(arr);
    ghost var at;
    r, at := FirstMaxByCount(arr, freq.vals, keys);
    if r.Some? {
      assert r.value in arr;
      assert forall y | y in arr :: Count(arr, y) <= Count(arr, r.value) by {
        forall y | y in arr
          ensures Count(arr, y) <= Count(arr, r.value)
        {
          var k :| 0 <= k < |keys| && keys[k] == y;
        }
      }
    }
  }

  /** The `for…in` enumeration of the counting object lists exactly the values of the array. */
  lemma {:induction false} KeyOrderMembers(arr: seq<int>)
    ensures forall i | 0 <= i < |IntKeyOrder(Dedup(arr))| :: IntKeyOrder(Dedup(arr))[i] in arr
    ensures forall y | y in arr :: y in IntKeyOrder(Dedup(arr))
  {
    var keys := IntKeyOrder(Dedup(arr));
    forall i | 0 <= i < |keys|
      ensures keys[i] in arr
    {
      assert keys[i] in multiset(Dedup(arr));
    }
    forall y | y in arr
      ensures y in keys
    {
      assert y in Dedup(arr);
      assert y in multiset(keys);
    }
  }

  lemma {:induction false} MostFrequentOrderExample()
    ensures IntKeyOrder(Dedup([5, 5, 6, 6]))[0] == 5
  {
    DedupExample();
    assert IntKeyOrder([5, 6]) == [5, 6] by {
      assert [5, 6][..1] == [5];
      assert Filter([5, 6], IsIndexInt) == [5, 6];
      assert Filter([5, 6], IsNotIndexInt) == [];
      assert [5, 6][1..] == [6];
      assert SortBy([6], IntValue) == [6];
    }
  }

  /** The keys of the counting object for [5, 5, 6, 6]. */
  lemma {:induction false} DedupExample()
    ensures Dedup([5, 5, 6, 6]) == [5, 6]
  {
    assert [5, 5, 6, 6][..3] == [5, 5, 6];
    assert [5, 5, 6][..2] == [5, 5];
    assert [5, 5][..1] == [5];
  }

}
