# JavaScript interview exercises, modelled in Dafny

This project models the exercise solutions of a JavaScript study
repository. It covers the string, object and higher-order-function practice
problems, the array problems, the "advanced" and "common" coding patterns,
and the hand-written `map`/`filter`/`reduce` polyfills. It also covers the
`map`/`forEach`/`filter`/`reduce` questions over a list of students, the
`product` class with a validating setter, and the functions that double an
object's numeric properties.

Each JavaScript function becomes a Dafny function or method over immutable
values:

- Arrays and strings are sequences (`seq<int>`, `string`).
- `null` and `undefined` results are `Option.None`.
- A `Map`, or a plain object used as a dictionary, is an `InsertionMap`: its
  keys in insertion order plus a `map` of values.
- Routines that work in place on an array (`reverseArray`, `moveZeros`,
  `rotateArray`, `reverse`) return the array's contents after the call.

Where the source enumerates a plain object (`for…in`, `Object.keys`,
`Object.values`), the model applies JavaScript's property order. Array-index
keys come first in ascending numeric order, then the other keys in insertion
order (module `JsObjects`). That order explains why `findDuplicates1`,
`mostFrequent` and `removeDuplicates1` can list values differently from their
`Map` counterparts.

Modules:

- `Common`: shared definitions.
  - `Option`, and `JsValue` (a number, a string or anything else).
  - `Count`, `Sum`, `Filter`, `FoldLeft`.
  - `Dedup`, which keeps first occurrences.
  - `Frequency`, and the `CountTable` counting loop.
  - `InsertionMap`.
  - ASCII character classes.
- `JsObjects`: the enumeration order of plain-object keys.
- `Anagrams`: the sorted-letter keys and the generic group-by loop.
- `StringPractise`, `ObjectsPractise`, `HofPractise`: the three practice
  files in `practise_problems/`.
- `ArrayPractise`: `array.js`.
- `AdvancedPatterns`: `advanced_coding_patterns.js`.
- `CommonPatterns`: `common_coding_patterns.js`.
- `Polyfills`: `JS/polyfill.js` and `polyfill.js`.
- `Questions`: `questions.js`.
- `ObjectsClasses`: `privateProperties.js`, `JS/objects.js` and `objects.js`.

## Model

| member | source | states |
|---|---|---|
| StringPractise.ReverseString | practise_problems/string.practise.js:41-43 | the result has the input's length, holds at i the input's character at length−1−i, and reversing it again gives back the input |
| Common.Swap | practise_problems/string.practise.js:33-37 | `swap(arr, left, right)` exchanges the two positions, leaves every other position alone and keeps the multiset |
| StringPractise.ReverseString1 | practise_problems/string.practise.js:18-38 | the two-pointer swap loop builds the same string as `split().reverse().join()` |
| StringPractise.IsPalindrome1 | practise_problems/string.practise.js:55-71 | true exactly when the string equals its reverse |
| StringPractise.IsPalindrome | practise_problems/string.practise.js:74-85 | true exactly when the string equals its reverse, so it agrees with `isPalindrome1` on every input |
| Common.CountEach | practise_problems/string.practise.js:99-105 | `charFrequency1`, and the first loop of `isAnagram` in common_coding_patterns.js: the object built by the counting loop maps each element to its number of occurrences and holds no other key |
| StringPractise.CharFrequency | practise_problems/string.practise.js:108-114 | the keys are exactly the characters present, and each maps to its positive occurrence count |
| StringPractise.CharFrequencySumsToLength | practise_problems/string.practise.js:99-114 | the counts, summed over the distinct characters, add up to the string's length |
| StringPractise.FirstNonRepeatingChar | practise_problems/string.practise.js:126-137 | null exactly when every character repeats; otherwise a character occurring once, with every earlier character occurring more than once |
| StringPractise.IsAnagram1 | practise_problems/string.practise.js:150-169 | false on a length mismatch, otherwise true exactly when the two character multisets are equal |
| StringPractise.IsAnagram | practise_problems/string.practise.js:172-187 | the same answer as `isAnagram1`: equal lengths and equal character multisets |
| StringPractise.SplitJoin | practise_problems/string.practise.js:200 | joining the pieces of `split(" ")` with the separator gives back the sentence |
| StringPractise.JoinSplit | practise_problems/string.practise.js:200 | splitting a join of separator-free words gives back the words |
| StringPractise.LongestWord | practise_problems/string.practise.js:199-210 | a word of the split sentence at least as long as every word, and the earliest such word because of the strict `>` |
| StringPractise.SingleCharKeys | practise_problems/string.practise.js:226-229 | a one-character key is an array index exactly when it is a digit, and its index is the digit's value |
| StringPractise.CharKeyOrderShape | practise_problems/string.practise.js:229 | for distinct keys, `Object.keys` lists the digit keys first in ascending order, then the other keys in insertion order |
| StringPractise.RemoveDuplicates1 | practise_problems/string.practise.js:223-230 | each character once, with the same characters as the first-occurrence version; the digits come first in ascending order and the rest keep first-occurrence order; without digits it equals `removeDuplicates` |
| StringPractise.RemoveDuplicates | practise_problems/string.practise.js:234-245 | the characters in order of first occurrence (`Dedup`) |
| StringPractise.RemoveDuplicates2 | practise_problems/string.practise.js:248-250 | the `Set` version holds no character twice, holds exactly the characters of the input, and lists them in the order of their first occurrences |
| StringPractise.RemoveDuplicates2IsDedup | practise_problems/string.practise.js:224-250 | the `Set` version and the `freq`/`result` version give the same string, because a duplicate-free first-occurrence listing is determined by its characters |
| StringPractise.RemoveDuplicatesProperties | practise_problems/string.practise.js:234-250 | no character repeats, the characters are exactly the input's, first occurrences keep their order, and applying it twice changes nothing |
| Common.CountTable | practise_problems/objects.practise.js:41-43 | the counting loop `freq[x] = (freq[x] \|\| 0) + 1` ends with one key per distinct element, the keys inserted in first-occurrence order, each mapped to its number of occurrences |
| ObjectsPractise.CountFrequency | practise_problems/objects.practise.js:25-46 | empty input gives the empty object; the keys are exactly the elements, inserted in first-occurrence order, and each maps to its positive count |
| ObjectsPractise.CountFrequencyTotal | practise_problems/objects.practise.js:25-46 | the counts add up to the array's length |
| ObjectsPractise.Duplicates | practise_problems/objects.practise.js:52-57 | holds a value exactly when it occurs more than once, and lists it once |
| ObjectsPractise.FindDuplicates | practise_problems/objects.practise.js:78-93 | the `Map` version returns `Duplicates`: the repeated values, each once, and `[]` when there are none |
| ObjectsPractise.DuplicatesFirstOccurrenceOrder | practise_problems/objects.practise.js:86-90 | the `Map` version lists the repeated values in order of first occurrence |
| ObjectsPractise.FindDuplicates1 | practise_problems/objects.practise.js:59-75 | the object version returns the repeated values in the plain-object key order |
| ObjectsPractise.FindDuplicatesVersionsAgree | practise_problems/objects.practise.js:59-93 | both versions return the same values; they differ only in that the object version sorts the array-index values ascending |
| ObjectsPractise.GroupAnagrams | practise_problems/objects.practise.js:107-123 | the groups together hold exactly the input words, and no group is empty |
| ObjectsPractise.GroupAnagramsAreAnagramClasses | practise_problems/objects.practise.js:107-123 | the group holding a word is exactly that word's anagrams, in input order |
| ObjectsPractise.GroupAnagrams1 | practise_problems/objects.practise.js:126-139 | the `Map` version's groups together hold exactly the input words, and no group is empty |
| ObjectsPractise.GroupAnagramsVersionsAgree | practise_problems/objects.practise.js:107-139 | for words of letters only, the object and `Map` versions give the same groups in the same order |
| Anagrams.CommaKeyIffAnagram | practise_problems/objects.practise.js:112 | two words get the same key `split("").sort().join()` exactly when they are anagrams |
| Anagrams.LetterWordKeysAreNotIndices | practise_problems/objects.practise.js:112 | the key of a letters-only word is never an array index, so such keys enumerate in insertion order |
| Anagrams.GroupingProperties | practise_problems/objects.practise.js:110-120 | the grouping loop gives each key one non-empty group holding exactly the words with that key, and the groups hold the input words between them |
| ObjectsPractise.TwoSum | practise_problems/objects.practise.js:152-167 | `[j, i]` with j < i, the two values summing to the target, and i the first index that completes a pair; otherwise no pair exists and the object of last indices is returned |
| ObjectsPractise.TwoSum1 | practise_problems/objects.practise.js:170-181 | the first completing pair `[j, i]` as above, or `[]` exactly when no pair exists |
| ObjectsPractise.TwoSumExamples | practise_problems/objects.practise.js:183-184 | `[0, 1]` for `[2, 7, 11, 15]` with target 9, and `[0, 2]` for `[-3, 4, 3, 90]` with target 0 |
| ObjectsPractise.MostFrequent | practise_problems/objects.practise.js:194-211 | null exactly for the empty array; otherwise a member whose count is at least every element's count, namely the first such member in plain-object key order |
| HofPractise.DoubleNumbers | practise_problems/hof.practise.js:24-26 | same length, and element i is twice the input's element i |
| HofPractise.DoubleNumbersSum | practise_problems/hof.practise.js:24-26 | the doubled array sums to twice the input's sum, and halving it gives back the input |
| HofPractise.FilterEven | practise_problems/hof.practise.js:37-39 | the input read at exactly the indices holding an even number, in increasing order; hence only even numbers, each even value as often as in the input and each odd value never |
| HofPractise.FilterEvenPartition | practise_problems/hof.practise.js:37-39 | the evens kept and the odds dropped make up the input |
| HofPractise.SumArray | practise_problems/hof.practise.js:50-52 | `sumArray` returns the sum of the elements, 0 for the empty array |
| HofPractise.SumArrayIsSum | practise_problems/hof.practise.js:50-52 | the reduce `(acc, curr) => acc + curr` from 0 equals the sum of the elements |
| HofPractise.FindMax | practise_problems/hof.practise.js:63-71 | `undefined` exactly for the empty array; otherwise a member at least as large as every element |
| HofPractise.CountFrequencyReduce | practise_problems/hof.practise.js:82-87 | the keys are exactly the elements, each mapped to its occurrence count |
| HofPractise.Boost | practise_problems/hof.practise.js:107-110 | adds 10 marks below 50, leaves other marks and the name unchanged |
| HofPractise.ProcessMarks | practise_problems/hof.practise.js:105-118 | every qualified student has more than 50 marks after the boost, and `totalMarks` is the sum of their marks |
| HofPractise.ProcessMarksSelection | practise_problems/hof.practise.js:105-118 | the qualified students are the boosted copies that pass the filter, in input order, each traced to an input student of the same name |
| HofPractise.ProcessMarksExample | practise_problems/hof.practise.js:120-127 | on the script's students the code returns total 195 with A, B and D |
| HofPractise.ProcessMarksAsDocumented | practise_problems/hof.practise.js:92-104 | with the documented "> 60" filter, every qualified student has more than 60 marks and the total is their sum |
| HofPractise.ProcessMarksAsDocumentedExample | practise_problems/hof.practise.js:242 | the documented filter gives the expected total 80 with only D |
| ArrayPractise.FindMaxMin | array.js:19-27 | the empty array leaves `{max: -Infinity, min: Infinity}`; otherwise max and min are members and bound every element |
| ArrayPractise.ReverseArray | array.js:37-54 | afterwards element i is the old element n−1−i, and the multiset is unchanged |
| ArrayPractise.RemoveDuplicates | array.js:64-74 | `undefined` exactly for the empty array; otherwise each run of equal neighbours collapsed to one |
| ArrayPractise.CollapseSorted | array.js:64-74 | on a sorted array the result is strictly increasing and holds the same values |
| ArrayPractise.MissingNumber | array.js:84-93 | n(n+1)/2 minus the sum of the array |
| ArrayPractise.MissingNumberFindsGap | array.js:84-93 | if the array holds 1..n except one value k, the result is k |
| ArrayPractise.ReverseRange | array.js:119-127 | positions start..end are reversed, every other position is unchanged, and the multiset is kept |
| ArrayPractise.RotateRightMoves | array.js:98-101 | a right rotation by k moves element i to position i+k, wrapping past the end |
| ArrayPractise.RotateByReversals | array.js:107-114 | reversing the whole array, then the first k, then the rest, rotates right by k |
| ArrayPractise.RotateArray | array.js:103-117 | as written: arrays of length 0 or 1 are unchanged; longer ones are rotated right by k mod (length−1) |
| ArrayPractise.RotateArrayModulusCounterexample | array.js:104-105 | on [1..5] with k = 4 the code rotates by 0 where a right rotation by 4 gives [2,3,4,5,1] |
| ArrayPractise.RotateArrayFixed | array.js:98-117 | with the modulus taken over the length, the result is the right rotation by k mod length |
| ArrayPractise.RotateArrayDocumentedExample | array.js:129 | `rotateArray([1,2,3,4,5], 2)` gives [4,5,1,2,3] |
| ArrayPractise.TwoSum | array.js:149-164 | the first completing pair `[j, i]` with j < i and the two values summing to the target, or `undefined` exactly when no pair exists |
| ArrayPractise.MoveZeros | array.js:174-192 | the non-zero elements in their original order, followed by zeros |
| ArrayPractise.MoveZerosKeepsCounts | array.js:174-192 | the length and multiset are unchanged, so the zero count is too, and the non-zero elements keep their order |
| AdvancedPatterns.WindowSlide | advanced_coding_patterns.js:29-32 | sliding by one subtracts the element leaving the window and adds the one entering |
| AdvancedPatterns.MaxSubarraySum | advanced_coding_patterns.js:15-35 | null exactly when the array is shorter than k; otherwise the sum of some window of k consecutive elements that is at least every such window's sum |
| AdvancedPatterns.MergeSortedArrays | advanced_coding_patterns.js:44-70 | the two-pointer loops produce the reference merge, which on equal heads takes the second array's element first, and the output is a permutation of both inputs |
| AdvancedPatterns.MergePermutation | advanced_coding_patterns.js:44-70 | the merge holds exactly the elements of both arrays |
| AdvancedPatterns.MergeSorted | advanced_coding_patterns.js:44-70 | merging two sorted arrays gives a sorted array |
| AdvancedPatterns.MergeExample | advanced_coding_patterns.js:71 | `[1,3,5]` and `[2,4,6]` merge to `[1,2,3,4,5,6]` |
| AdvancedPatterns.IsValidParentheses | advanced_coding_patterns.js:80-99 | true exactly when the scan ends with an empty stack, which is exactly when the string is a well-nested word over (), [] and {} |
| AdvancedPatterns.WellNestedIffValid | advanced_coding_patterns.js:77-99 | the stack scan accepts a string if and only if it renders some bracket forest |
| AdvancedPatterns.NonBracketInvalid | advanced_coding_patterns.js:92-94 | any non-bracket character makes the string invalid |
| AdvancedPatterns.ParenthesesEdgeCases | advanced_coding_patterns.js:88-98 | "" is valid, a lone opener leaves its closer on the stack, and a lone closer fails |
| AdvancedPatterns.ParenthesesExamples | advanced_coding_patterns.js:78-100 | "{[]}" is accepted and "{[}]" is rejected |
| AdvancedPatterns.GroupAnagrams | advanced_coding_patterns.js:109-123 | the groups together hold exactly the input words, and no group is empty |
| AdvancedPatterns.GroupAnagramsAreAnagramClasses | advanced_coding_patterns.js:109-123 | the group holding a word is exactly that word's anagrams, in input order |
| AdvancedPatterns.GroupAnagramsLetterWordsInsertionOrder | advanced_coding_patterns.js:109-123 | for letters-only words the groups come in order of their key's first appearance |
| Anagrams.PlainKeyIffAnagram | advanced_coding_patterns.js:114 | two words get the same key `split('').sort().join('')` exactly when they are anagrams |
| CommonPatterns.IsAnagram | common_coding_patterns.js:14-29 | true exactly when the two strings have the same character multiset, which includes a length mismatch giving false |
| CommonPatterns.Normalize | common_coding_patterns.js:41 | the normalised string is no longer than the input and holds only lower-case letters and digits |
| CommonPatterns.NormalizeIdempotent | common_coding_patterns.js:41 | normalising twice is normalising once |
| CommonPatterns.NormalizeAppend | common_coding_patterns.js:41 | normalisation works character by character, so it distributes over concatenation |
| CommonPatterns.IsPalindrome | common_coding_patterns.js:39-52 | true exactly when the normalised string equals its reverse |
| CommonPatterns.PalindromeExample | common_coding_patterns.js:53 | "A man, a plan, a canal: Panama" normalises to "amanaplanacanalpanama" |
| CommonPatterns.PalindromeExampleIsPalindrome | common_coding_patterns.js:53 | that normalised string is its own reverse, so the call returns true |
| CommonPatterns.FibRecursive | common_coding_patterns.js:74-77 | `n` itself below 2; from 0 on never negative, from 1 on at least 1, and from 2 on at least `n − 1` |
| CommonPatterns.FibIterative | common_coding_patterns.js:62-77 | the loop version returns `fibRecursive(n)` for every n, and n itself below 2 |
| CommonPatterns.FibPrefixSum | common_coding_patterns.js:59 | the first n Fibonacci numbers sum to fib(n+1) − 1 |
| CommonPatterns.FibExamples | common_coding_patterns.js:59-79 | fib(6) = 8 and the sequence starts 0, 1, 1, 2, 3, 5, 8 |
| CommonPatterns.Flatten | common_coding_patterns.js:87-99 | the recursive loop returns the leaves left to right |
| CommonPatterns.FlatAppend | common_coding_patterns.js:87-99 | flattening distributes over concatenation |
| CommonPatterns.FlattenIdempotent | common_coding_patterns.js:87-99 | the output contains no nested arrays, so flattening it again changes nothing |
| CommonPatterns.FlattenExample | common_coding_patterns.js:83-104 | `[1,[2,[3,4],5]]` flattens to `[1,2,3,4,5]` |
| Polyfills.MyMap | JS/polyfill.js:30-39 | same length, and element i is the callback applied to element i, its index and the array |
| Polyfills.MyMapCompose | polyfill.js:4-10 | mapping twice is mapping once with the composed callback |
| Polyfills.MyMapExample | JS/polyfill.js:41-46 | doubling `[1,2,3,4,5]` gives `[2,4,6,8,10]` |
| Common.Kept | JS/polyfill.js:60-70 | the accepted indices below `n`, increasing, each accepted by the callback, and none missing |
| Polyfills.MyFilter | JS/polyfill.js:60-70 | `myFilter` returns the array read at exactly the accepted indices, in increasing order |
| Polyfills.MyFilterKeepsAccepted | JS/polyfill.js:60-70 | the result is the elements at the accepted indices, in order |
| Polyfills.MyFilterByValue | polyfill.js:18-24 | with a callback that reads only the value, the polyfill equals the plain filter |
| Polyfills.MyFilterExample | JS/polyfill.js:72-75 | keeping the elements above 3 of `[1,2,3,4,5]` gives `[4,5]` |
| Polyfills.MyReduce | JS/polyfill.js:89-102 | no elements gives the initial value; an `undefined` accumulator before the last element makes the result that element |
| Polyfills.ReduceRestartsAfterUndefined | JS/polyfill.js:93-98 | once the accumulator is `undefined`, the next element seeds a fresh reduction over the rest of the array |
| Polyfills.MyReduceIsFold | JS/polyfill.js:89-102 | with an initial value and a callback that never returns `undefined`, the polyfill is a left fold |
| Polyfills.MyReduceWithoutInit | JS/polyfill.js:96-97 | without an initial value, the first element seeds a left fold over the rest |
| Polyfills.MyReduceSumExample | JS/polyfill.js:104-109 | summing `[1,2,3,4,5]` from 0 gives 15 |
| Polyfills.MyReduceTruthy | polyfill.js:33-39 | as written: no elements gives the initial value; a falsy accumulator before the last element makes the result that element |
| Polyfills.TruthyAgreesWhileTruthy | polyfill.js:33-39 | while every accumulator is truthy, the truthiness test agrees with the `undefined` test |
| Polyfills.MyReduceTruthyCounterexample | polyfill.js:36 | multiplying `[2,0,3]` from 1 gives 3, where the `undefined` test and the fold give 0 |
| Polyfills.MyReduceTruthyZeroSeed | polyfill.js:36 | an initial value of 0 is thrown away like a missing one |
| Questions.MapResult | questions.js:28-30 | a new array, two more than the original at every position |
| Questions.ForEachAddThree | questions.js:41-43 | the array after the `forEach` pass is three more than before at every position |
| Questions.MapResultUnaffected | questions.js:49-56 | `mapResult`, computed before the mutation, stays one less than the mutated array and differs from it |
| Questions.MapExample | questions.js:49-50 | `[2,4,6,8,10]` maps to `[4,6,8,10,12]` |
| Questions.CapitalNames | questions.js:89-91 | one upper-cased name per student, in order |
| Questions.Names | questions.js:95-98 | the `for` loop pushing upper-cased names builds the same list as `map` |
| Questions.Details | questions.js:102 | the students read at exactly the indices whose marks exceed 60, in input order; so a student is kept iff it has more than 60 marks |
| Questions.MoreDetails | questions.js:106 | only students with more than 60 marks and roll number above 15 |
| Questions.MoreDetailsNarrowsDetails | questions.js:102-106 | `moreDetails` is `details` further filtered by roll number above 15, in the same order |
| Questions.SumOfMarks | questions.js:111-114 | `sumOfMarks` is the sum of every student's marks |
| Questions.SumOfMarksIsSum | questions.js:111-114 | the reduce adds up every student's marks |
| Questions.Answer | questions.js:118 | the names of the students with more than 60 marks, in order |
| Questions.Boosted | questions.js:128-131 | 20 extra marks for marks below 60, the rest unchanged |
| Questions.GuardedFoldIsFilteredSum | questions.js:132-141 | a reduce that adds only marks above 60 equals filtering first and then adding |
| Questions.SumAbove60 | questions.js:127-135 | `sum` is the sum of the boosted marks above 60 |
| Questions.SumAbove60Filtered | questions.js:138-141 | `sum1` is the sum of the boosted marks above 60 |
| Questions.SumFormulationsAgree | questions.js:127-141 | `sum` and `sum1` give the same total |
| Questions.SumExample | questions.js:127-143 | on the script's students the boosted marks are 80, 69, 55, 75 and the total is 224 |
| ObjectsClasses.NewProduct | privateProperties.js:11-15 | the constructor stores name, price and description unchecked |
| ObjectsClasses.SetName | privateProperties.js:18-25 | a non-string leaves the instance unchanged; a string replaces the name; the price and description never change |
| ObjectsClasses.SetThenGet | privateProperties.js:18-29 | the getter returns the last name the setter accepted, and setting the same name twice is setting it once |
| ObjectsClasses.GetName | privateProperties.js:27-29 | the getter returns the private `#name` as stored, whether or not it is a string |
| ObjectsClasses.GetThenSet | privateProperties.js:18-29 | setting the name to what the getter returns changes nothing |
| ObjectsClasses.ProductExample | privateProperties.js:37-43 | after `p.name = "izhar"` the getter returns "izhar", and `p.name = -1` would be refused |
| ObjectsClasses.MultiplyNumeric | JS/objects.js:74-80 | every numeric property is doubled, every other property is unchanged, no key is added or removed, and the key order is kept |
| ObjectsClasses.DoubleEachVisitsOnce | objects.js:42-48 | the `for…in` loop of `multiplyNum` (the same loop as `multiplyNumeric`) visits each own key exactly once: a listed number is doubled, anything else and every unlisted key keeps its value |
| ObjectsClasses.MultiplyNumericExample | JS/objects.js:72-82 | `{a: 100, b: 200, title: "My Nums"}` becomes `{a: 200, b: 400, title: "My Nums"}` |

## Left out

- Numbers are unbounded integers. IEEE-754 doubles are not modelled: fractions, rounding, `NaN`, overflow to `Infinity`. The exception is the `±Infinity` starting values of `findMaxMin`, which are modelled.
- Strings are sequences of Unicode scalar values (`char`), while JavaScript strings are sequences of UTF-16 code units. The two agree only on text without surrogate pairs, which covers all the scripts' inputs (ASCII). Outside the Basic Multilingual Plane, the model no longer matches the JavaScript in three ways. It does not split a character in two the way `split("")` and `str[i]` do. It orders characters by code point, not code unit. It counts characters, not code units, for `.length`.
- `toUpperCase` and `toLowerCase` are modelled for ASCII letters only.
- `console.log` output is not modelled, and neither is `display()` in privateProperties.js, which only logs.
- The setter's "invaled name passed" message is not modelled.
- ArrayPractise.RotateArray: takes `k: nat`. Negative rotation counts, for which JavaScript's `%` keeps the sign, are not modelled.
- AdvancedPatterns.MaxSubarraySum: takes `k: nat`. Negative window sizes are not modelled.
- ArrayPractise.RemoveDuplicates: states only the returned slice. The input array's contents after the in-place compaction are not stated.
- Questions.ForEachAddThree: `forEach` returns `undefined`, which is not modelled. The method returns the mutated array.
- Polyfills.MyMap: callbacks are pure functions of the element, the index and the array. The same holds for `Polyfills.MyFilter` and `Polyfills.MyReduce`. A callback that mutates the array during the loop is not modelled.
- Polyfills.MyReduceTruthy: `Truthy` treats only `undefined`/`null` and 0 as falsy. `NaN` and non-number accumulators are not modelled.
- ObjectsClasses.MultiplyNumeric: visits the keys in insertion order instead of plain-object enumeration order. Each key is visited once, so the order does not affect the result. Inherited enumerable properties are not modelled.
- CommonPatterns.Flatten: items are values or nested arrays. Sparse arrays and array-like objects are not modelled.
- CommonPatterns.FibRecursive: defined for integer arguments only, and returns `n` for every `n < 2`, as the source does.
- `twoSum_1` and `secondLargest` in array.js are not part of this model. The same goes for Q7–Q12 of hof.practise.js, which are unsolved or commented out.

## Findings

| source | as written | input that shows it | evidently intended | confidence | as-written member | corrected member |
|---|---|---|---|---|---|---|
| array.js:104-105 | `k` is reduced modulo `length − 1` | `rotateArray([1,2,3,4,5], 4)` rotates by 4 mod 4 = 0 and returns the array unchanged | a right rotation by `k mod length`, giving `[2,3,4,5,1]` | not executed | ArrayPractise.RotateArray, ArrayPractise.RotateArrayModulusCounterexample | ArrayPractise.RotateArrayFixed |
| polyfill.js:36 | the accumulator is tested for truthiness, so a 0 accumulator is replaced by the current element | `[2,0,3].myReduce((a, c) => a * c, 1)` returns 3 | test for `undefined`, as JS/polyfill.js:93 does, giving the product 0 | not executed | Polyfills.MyReduceTruthy, Polyfills.MyReduceTruthyCounterexample | Polyfills.MyReduce, Polyfills.MyReduceIsFold |
| practise_problems/hof.practise.js:111 | the filter keeps marks `> 50` | the script's students give total 195 with A, B and D | marks `> 60`, as the description and the expected output 80 say (lines 95, 103, 242) | not executed | HofPractise.ProcessMarks, HofPractise.ProcessMarksExample | HofPractise.ProcessMarksAsDocumented, HofPractise.ProcessMarksAsDocumentedExample |
