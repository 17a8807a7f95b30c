/**
 The string exercises of practise_problems/string.practise.js: reversal (two
 pointers and built-in), palindrome checks, character frequencies, the first
 non-repeating character, anagram checks, the longest word of a sentence and
 duplicate-character removal. Strings are `seq<char>` over ASCII, so splitting
 into characters and iterating with `for…of` coincide.
 */
module StringPractise {
  import opened Common
  import JsObjects

  // ---------------------------------------------------------------------------
  // Q1. Reverse a string
  // ---------------------------------------------------------------------------

  /** M-2: `str.split("").reverse().join("")`. */
  function ReverseString(str: string): (r: string)
    ensures |r| == |str|
    ensures forall i | 0 <= i < |str| :: r[i] == str[|str| - 1 - i]
    ensures Reverse(r) == str
  {
    Reverse(str)
  }

  /** M-1: swap the outermost unswapped pair until the pointers meet;
      it agrees with the built-in variant on every input. */
  method ReverseString1(str: string) returns (r: string)
    ensures r == ReverseString(str)
  {
    var arr := str;
    var left, right := 0, |str| - 1;
    while left < right
      invariant 0 <= left && right == |str| - 1 - left
      invariant left <= right + 1
      invariant HalfReversed(str, arr, left)
    {
      SwapStep(str, arr, left);
      arr := Swap(arr, left, right);
      left := left + 1;
      right := right - 1;
    }
    ReversedWhenMet(str, arr, left);
    r := arr;
  }

  /** Once the pointers meet, the whole string is reversed. */
  lemma {:induction false} ReversedWhenMet(str: string, arr: string, left: nat)
    requires |str| - 1 - left <= left
    requires HalfReversed(str, arr, left)
    ensures arr == Reverse(str)
  {
    forall k | 0 <= k < |str|
      ensures arr[k] == Reverse(str)[k]
    {
      if left <= k <= |str| - 1 - left {
        assert k == |str| - 1 - k;
      }
    }
  }

  /** The outer `left` positions at each end hold the reversed characters; the middle is untouched. */
  predicate HalfReversed(str: string, arr: string, left: nat)
  {
    && |arr| == |str|
    && (forall k | 0 <= k < |str| && (k < left || k > |str| - 1 - left) :: arr[k] == str[|str| - 1 - k])
    && (forall k | left <= k <= |str| - 1 - left :: arr[k] == str[k])
  }

  /** One `swap(arr, left, right)` extends the reversed ends by one position each. */
  lemma {:induction false} SwapStep(str: string, arr: string, left: nat)
    requires left < |str| - 1 - left
    requires HalfReversed(str, arr, left)
    ensures HalfReversed(str, Swap(arr, left, |str| - 1 - left), left + 1)
  {
    var right := |str| - 1 - left;
    var next := Swap(arr, left, right);
    forall k | 0 <= k < |str| && (k < left + 1 || k > |str| - 1 - (left + 1))
      ensures next[k] == str[|str| - 1 - k]
    {
      if k != left && k != right {
        assert next[k] == arr[k];
      }
    }
  }

  // ---------------------------------------------------------------------------
  // Q2. Palindrome
  // ---------------------------------------------------------------------------

  /** M-1: the two-pointer comparison on a copied character array. */
  method IsPalindrome1(str: string) returns (b: bool)
    ensures b <==> str == Reverse(str)
  {
    var arr := str;
    var left, right := 0, |arr| - 1;
    while left < right
      invariant 0 <= left && right == |arr| - 1 - left && left <= right + 1
      invariant forall k | 0 <= k < left :: arr[k] == arr[|arr| - 1 - k]
    {
      if arr[left] != arr[right] {
        assert Reverse(str)[left] != str[left];
        return false;
      }
      left := left + 1;
      right := right - 1;
    }
    assert forall k | 0 <= k < |str| :: str[k] == str[|str| - 1 - k] by {
      forall k | 0 <= k < |str|
        ensures str[k] == str[|str| - 1 - k]
      {
        if k > right {
          assert |str| - 1 - k < left;
        }
      }
    }
    return true;
  }

  /** M-2: the same comparison indexing the string directly; it gives the
      same answer as `IsPalindrome1`, since both are exact for `str == Reverse(str)`. */
  method IsPalindrome(str: string) returns (b: bool)
    ensures b <==> str == Reverse(str)
  {
    var left, right := 0, |str| - 1;
    while left < right
      invariant 0 <= left && right == |str| - 1 - left && left <= right + 1
      invariant forall k | 0 <= k < left :: str[k] == str[|str| - 1 - k]
    {
      if str[left] != str[right] {
        assert Reverse(str)[left] != str[left];
        return false;
      }
      left := left + 1;
      right := right - 1;
    }
    assert forall k | 0 <= k < |str| :: str[k] == str[|str| - 1 - k] by {
      forall k | 0 <= k < |str|
        ensures str[k] == str[|str| - 1 - k]
      {
        if k > right {
          assert |str| - 1 - k < left;
        }
      }
    }
    return true;
  }

  // ---------------------------------------------------------------------------
  // Q3. Character frequency
  // ---------------------------------------------------------------------------

  /** M-2: a `Map` filled by `for…of`, converted with `Object.fromEntries`;
      the keys are exactly the characters present, each with its count. */
  function CharFrequency(str: string): (freq: map<char, nat>)
    ensures freq.Keys == set c | c in str
    ensures forall c | c in freq :: freq[c] == Count(str, c) && freq[c] > 0
  {
    FoldBumpIsFrequency(str);
    FoldLeft(Bump, map[], str)
  }

  /** The counts of a character frequency table add up to the string's length. */
  lemma {:induction false} CharFrequencySumsToLength(str: string)
    ensures forall c | c in Dedup(str) :: c in CharFrequency(str)
    ensures SumOver(Dedup(str), CharFrequency(str)) == |str|
  {
    FoldBumpIsFrequency(str);
    FrequencyTotal(str);
  }

  // ---------------------------------------------------------------------------
  // Q4. First non-repeating character
  // ---------------------------------------------------------------------------

  /** The earliest character occurring exactly once; `None` (null) when every character repeats. */
  method FirstNonRepeatingChar(str: string) returns (r: Option<char>)
    ensures r.None? <==> forall i | 0 <= i < |str| :: Count(str, str[i]) != 1
    ensures r.Some? ==> exists i | 0 <= i < |str| ::
      && str[i] == r.value
      && Count(str, r.value) == 1
      && forall j | 0 <= j < i :: Count(str, str[j]) != 1
  {
    var freq := CountEach(str);
    for i := 0 to |str|
      invariant forall j | 0 <= j < i :: Count(str, str[j]) != 1
    {
      var key := str[i];
      if freq[key] == 1 {
        return Some(key);
      }
    }
    return None;
  }

  // ---------------------------------------------------------------------------
  // Q5. Anagram
  // ---------------------------------------------------------------------------

  /** M-1: build both frequency tables, then compare them on the characters of `str1`. */
  method IsAnagram1(str1: string, str2: string) returns (b: bool)
    ensures b <==> |str1| == |str2| && multiset(str1) == multiset(str2)
  {
    if |str1| != |str2| {
      return false;
    }
    var freq1 := CountEach(str1);
    var freq2 := CountEach(str2);
    for i := 0 to |str1|
      invariant forall j | 0 <= j < i :: Count(str1, str1[j]) == Count(str2, str1[j])
    {
      var ch := str1[i];
      if ch !in freq2 || freq1[ch] != freq2[ch] {
        assert multiset(str1)[ch] != multiset(str2)[ch];
        return false;
      }
    }
    forall x
      ensures Count(str1, x) <= Count(str2, x)
    {
      if x in str1 {
        var j :| 0 <= j < |str1| && str1[j] == x;
      }
    }
    CountsBoundedSameLength(str1, str2);
    return true;
  }

  /** M-2: count `str1`, then consume the counts with `str2`, failing on the
      first character whose count is missing or already used up. */
  method IsAnagram(str1: string, str2: string) returns (b: bool)
    ensures b <==> |str1| == |str2| && multiset(str1) == multiset(str2)
  {
    if |str1| != |str2| {
      return false;
    }
    var freq := CountEach(str1);
    for j := 0 to |str2|
      invariant forall c :: c in freq <==> c in str1
      invariant forall c | c in freq :: freq[c] + Count(str2[..j], c) == Count(str1, c)
      invariant forall c :: Count(str2[..j], c) <= Count(str1, c)
    {
      var ch := str2[j];
      assert str2[..j + 1] == str2[..j] + [ch];
      if ch !in freq || freq[ch] == 0 {
        assert str2 == str2[..j + 1] + str2[j + 1..];
        assert Count(str2, ch) > Count(str1, ch);
        return false;
      }
      freq := freq[ch := freq[ch] - 1];
    }
    assert str2[..|str2|] == str2;
    CountsBoundedSameLength(str2, str1);
    return true;
  }

  // ---------------------------------------------------------------------------
  // Q6. Longest word
  // ---------------------------------------------------------------------------

  /** `s.split(sep)` for a one-character separator: the pieces between
      separators, empty pieces included, so there is always at least one. */
  function Split(s: string, sep: char): (ws: seq<string>)
    ensures |ws| >= 1
    ensures forall i | 0 <= i < |ws| :: sep !in ws[i]
    decreases |s|
  {
    if |s| == 0 then [""]
    else
      var rest := Split(s[1..], sep);
      if s[0] == sep then [""] + rest
      else [[s[0]] + rest[0]] + rest[1..]
  }

  /** `ws.join(sep)`. */
  function Join(ws: seq<string>, sep: char): string
    requires |ws| >= 1
    decreases |ws|
  {
    if |ws| == 1 then ws[0] else ws[0] + [sep] + Join(ws[1..], sep)
  }

  /** Joining the pieces of a split gives back the sentence. */
  lemma {:induction false} SplitJoin(s: string, sep: char)
    ensures Join(Split(s, sep), sep) == s
    decreases |s|
  {
    if |s| > 0 {
      var rest := Split(s[1..], sep);
      SplitJoin(s[1..], sep);
      if s[0] == sep {
        assert ([""] + rest)[1..] == rest;
      } else {
        var ws := [[s[0]] + rest[0]] + rest[1..];
        assert ws[1..] == rest[1..];
        if |rest| > 1 {
          assert Join(rest, sep) == rest[0] + [sep] + Join(rest[1..], sep);
        }
        assert s == [s[0]] + s[1..];
      }
    }
  }

  lemma {:induction false} SplitWord(w: string, sep: char)
    requires sep !in w
    ensures Split(w, sep) == [w]
    decreases |w|
  {
    if |w| > 0 {
      SplitWord(w[1..], sep);
      assert w == [w[0]] + w[1..];
    }
  }

  lemma {:induction false} SplitAfterWord(w: string, sep: char, t: string)
    requires sep !in w
    ensures Split(w + [sep] + t, sep) == [w] + Split(t, sep)
    decreases |w|
  {
    var s := w + [sep] + t;
    if |w| == 0 {
      assert s[1..] == t;
    } else {
      assert s[1..] == w[1..] + [sep] + t;
      SplitAfterWord(w[1..], sep, t);
      assert w == [w[0]] + w[1..];
    }
  }

  /** Splitting a join of separator-free words gives back the words. */
  lemma {:induction false} JoinSplit(ws: seq<string>, sep: char)
    requires |ws| >= 1
    requires forall i | 0 <= i < |ws| :: sep !in ws[i]
    ensures Split(Join(ws, sep), sep) == ws
    decreases |ws|
  {
    if |ws| == 1 {
      SplitWord(ws[0], sep);
    } else {
      JoinSplit(ws[1..], sep);
      SplitAfterWord(ws[0], sep, Join(ws[1..], sep));
      assert ws == [ws[0]] + ws[1..];
    }
  }

  /** A word of maximal length among `sentence.split(" ")`; because the
      comparison is a strict `>`, the earliest such word. */
  method LongestWord(sentence: string) returns (longest: string)
    ensures var ws := Split(sentence, ' ');
      && (forall j | 0 <= j < |ws| :: |ws[j]| <= |longest|)
      && exists i | 0 <= i < |ws| :: ws[i] == longest && forall j | 0 <= j < i :: |ws[j]| < |longest|
  {
    var words := Split(sentence, ' ');
    longest := "";
    ghost var at := -1;
    for k := 0 to |words|
      invariant -1 <= at < k
      invariant at == -1 ==> longest == ""
      invariant at >= 0 ==> words[at] == longest && forall j | 0 <= j < at :: |words[j]| < |longest|
      invariant forall j | 0 <= j < k :: |words[j]| <= |longest|
    {
      var word := words[k];
      if |word| > |longest| {
        longest := word;
        at := k;
      }
    }
    if at == -1 {
      at := 0;
    }
    assert words[at] == longest && forall j | 0 <= j < at :: |words[j]| < |longest|;
  }

  // ---------------------------------------------------------------------------
  // Q7. Remove duplicate characters
  // ---------------------------------------------------------------------------

  predicate IsNotDigit(c: char)
  {
    !IsDigit(c)
  }

  function CharCode(c: char): int
  {
    c as int
  }

  /** A one-character property name is an array index exactly when it is a
      digit, and its index is the digit's value, so digit keys enumerate in
      character order. */
  lemma {:induction false} SingleCharKeys(c: char)
    ensures JsObjects.IsIndexKey([c]) <==> IsDigit(c)
    ensures IsDigit(c) ==> JsObjects.IndexValue([c]) == CharCode(c) - CharCode('0')
  {
    assert [c][..0] == [];
    if IsDigit(c) {
      assert JsObjects.AllDigits([c]);
      assert JsObjects.DecimalValue([c]) == CharCode(c) - CharCode('0');
    }
  }

  /** `Object.keys` of an object whose one-character keys were added in the
      order `cs`: the digit keys ascending, then the others in insertion order. */
  function CharKeyOrder(cs: string): (order: string)
    ensures multiset(order) == multiset(cs)
  {
    PartitionMultiset(cs, IsDigit, IsNotDigit);
    JsObjects.SortBy(Filter(cs, IsDigit), CharCode) + Filter(cs, IsNotDigit)
  }

  /** Sorting distinct digits by code leaves them strictly ascending. */
  lemma {:induction false} SortedDigits(ds: string)
    requires Distinct(ds) && forall i | 0 <= i < |ds| :: IsDigit(ds[i])
    ensures var sorted := JsObjects.SortBy(ds, CharCode);
      && |sorted| == |ds|
      && (forall i | 0 <= i < |sorted| :: IsDigit(sorted[i]))
      && (forall i, j | 0 <= i < j < |sorted| :: sorted[i] < sorted[j])
  {
    var sorted := JsObjects.SortBy(ds, CharCode);
    assert |sorted| == |multiset(sorted)| == |multiset(ds)| == |ds|;
    forall i | 0 <= i < |sorted|
      ensures IsDigit(sorted[i])
    {
      assert sorted[i] in multiset(ds);
    }
    DistinctPermutation(ds, sorted);
    StrictlyByCode(sorted);
  }

  /** A distinct sequence sorted by character code is strictly ascending. */
  lemma {:induction false} StrictlyByCode(s: string)
    requires Distinct(s) && JsObjects.SortedBy(s, CharCode)
    ensures forall i, j | 0 <= i < j < |s| :: s[i] < s[j]
  {
    forall i, j | 0 <= i < j < |s|
      ensures s[i] < s[j]
    {
      assert CharCode(s[i]) <= CharCode(s[j]);
      assert s[i] != s[j];
    }
  }

  /** The digit part of the key order is ascending and made of digits; the rest is the non-digits in order. */
  lemma {:induction false} CharKeyOrderShape(cs: string)
    requires Distinct(cs)
    ensures var order := CharKeyOrder(cs);
      var d := |Filter(cs, IsDigit)|;
      && d <= |order|
      && (forall i | 0 <= i < d :: IsDigit(order[i]))
      && (forall i, j | 0 <= i < j < d :: order[i] < order[j])
      && order[d..] == Filter(cs, IsNotDigit)
  {
    var ds := Filter(cs, IsDigit);
    DigitPart(cs);
    SortedDigits(ds);
    var sorted := JsObjects.SortBy(ds, CharCode);
    var order := CharKeyOrder(cs);
    assert order == sorted + Filter(cs, IsNotDigit);
    assert order[..|ds|] == sorted;
  }

  /** The digits of a distinct key list are distinct digits. */
  lemma {:induction false} DigitPart(cs: string)
    requires Distinct(cs)
    ensures Distinct(Filter(cs, IsDigit))
    ensures forall i | 0 <= i < |Filter(cs, IsDigit)| :: IsDigit(Filter(cs, IsDigit)[i])
  {
    var ds := Filter(cs, IsDigit);
    FilterMembers(cs, IsDigit);
    FilterPairwise(cs, IsDigit, (x: char, y: char) => x != y);
    forall i | 0 <= i < |ds|
      ensures IsDigit(ds[i])
    {
      assert ds[i] in ds;
    }
  }

  /** Without digits, the key order is the insertion order. */
  lemma {:induction false} CharKeyOrderNoDigits(cs: string)
    requires forall i | 0 <= i < |cs| :: !IsDigit(cs[i])
    ensures CharKeyOrder(cs) == cs
  {
    FilterNone(cs, IsDigit);
    FilterAll(cs, IsNotDigit);
  }

  /** M-1: count into an object, then `Object.keys(freq).join("")`: each
      character once, digits first in ascending order, then the remaining
      characters in order of first occurrence. */
  method RemoveDuplicates1(str: string) returns (result: string)
    ensures multiset(result) == multiset(Dedup(str))
    ensures Distinct(result)
    ensures var d := |Filter(Dedup(str), IsDigit)|;
      && d <= |result|
      && (forall i | 0 <= i < d :: IsDigit(result[i]))
      && (forall i, j | 0 <= i < j < d :: result[i] < result[j])
      && result[d..] == Filter(Dedup(str), IsNotDigit)
    ensures (forall i | 0 <= i < |str| :: !IsDigit(str[i])) ==> result == Dedup(str)
  {
    var freq := CountTable(str);
    result := CharKeyOrder(freq.keys);
    CharKeyOrderShape(Dedup(str));
    DistinctPermutation(Dedup(str), result);
    if forall i | 0 <= i < |str| :: !IsDigit(str[i]) {
      DedupNoDigits(str);
      CharKeyOrderNoDigits(Dedup(str));
    }
  }

  lemma {:induction false} DedupNoDigits(str: string)
    requires forall i | 0 <= i < |str| :: !IsDigit(str[i])
    ensures forall i | 0 <= i < |Dedup(str)| :: !IsDigit(Dedup(str)[i])
  {
    forall i | 0 <= i < |Dedup(str)|
      ensures !IsDigit(Dedup(str)[i])
    {
      assert Dedup(str)[i] in Dedup(str);
      var j :| 0 <= j < |str| && str[j] == Dedup(str)[i];
    }
  }

  /** M-2: append a character the first time it is seen. */
  method RemoveDuplicates(str: string) returns (result: string)
    ensures result == Dedup(str)
  {
    var freq: map<char, nat> := map[];
    result := "";
    for i := 0 to |str|
      invariant result == Dedup(str[..i])
      invariant forall c :: c in freq <==> c in result
      invariant forall c | c in freq :: freq[c] == 1
    {
      var ch := str[i];
      assert str[..i + 1][..i] == str[..i];
      if ch !in freq {
        freq := freq[ch := 1];
        result := result + [ch];
      }
    }
    assert str[..|str|] == str;
  }

  /** One step of `new Set(str)`: a value not yet present is appended in insertion order. */
  function SetAdd(order: string, ch: char): string
  {
    if ch in order then order else order + [ch]
  }

  /** `[...new Set(str)].join("")`: a `Set` holds each character once and
      iterates in insertion order, so the string lists the characters of `str`
      once each, in the order they first occur. */
  function RemoveDuplicates2(str: string): (result: string)
    ensures Distinct(result)
    ensures forall c :: c in result <==> c in str
    ensures FirstOccurrenceOrdered(str, result)
    decreases |str|
  {
    if |str| == 0 then ""
    else
      var p := str[..|str| - 1];
      LastSplit(str);
      SetAddStep(p, str[|str| - 1], RemoveDuplicates2(p));
      SetAdd(RemoveDuplicates2(p), str[|str| - 1])
  }

  /** Adding the next character to a `Set` of the characters seen so far keeps it a first-occurrence listing. */
  lemma {:induction false} SetAddStep(p: string, y: char, d: string)
    requires Distinct(d) && (forall c :: c in d <==> c in p) && FirstOccurrenceOrdered(p, d)
    ensures Distinct(SetAdd(d, y))
    ensures forall c :: c in SetAdd(d, y) <==> c in p + [y]
    ensures FirstOccurrenceOrdered(p + [y], SetAdd(d, y))
  {
    if y in d {
      FirstOccurrenceExtend(p, y, d);
    } else {
      FirstOccurrenceSnoc(p, y, d);
    }
  }

  /** The `Set` version gives the same string as `removeDuplicates`. */
  lemma {:induction false} RemoveDuplicates2IsDedup(str: string)
    ensures RemoveDuplicates2(str) == Dedup(str)
  {
    var d := Dedup(str);
    DedupFirstOccurrenceOrder(str);
    assert FirstOccurrenceOrdered(str, d);
    forall c
      ensures c in d <==> c in str
    {
      if c in str {
        var i :| 0 <= i < |str| && str[i] == c;
      }
    }
    FirstOccurrenceUnique(str, RemoveDuplicates2(str), d);
  }

  /** The de-duplicated string has no repeats, the same characters as the
      input, keeps first occurrences in order, and de-duplicating it again changes nothing. */
  lemma {:induction false} RemoveDuplicatesProperties(str: string)
    ensures Distinct(Dedup(str))
    ensures forall c :: c in Dedup(str) <==> c in str
    ensures forall i, j | 0 <= i < j < |Dedup(str)| ::
      FirstIndex(str, Dedup(str)[i]) < FirstIndex(str, Dedup(str)[j])
    ensures Dedup(Dedup(str)) == Dedup(str)
  {
    DedupFirstOccurrenceOrder(str);
    DedupOfDistinct(Dedup(str));
    forall c | c in str
      ensures c in Dedup(str)
    {
      var i :| 0 <= i < |str| && str[i] == c;
    }
  }
}
