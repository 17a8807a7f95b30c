/**
 The four patterns of common_coding_patterns.js: an anagram test with a
 frequency object, a palindrome test after normalisation, Fibonacci computed
 iteratively and recursively, and recursive flattening of nested arrays.
 */
module CommonPatterns {
  import opened Common

  // ---------------------------------------------------------------------------
  // 1. isAnagram
  // ---------------------------------------------------------------------------

  /** `isAnagram(s, t)`: count `s` with `(map[char] || 0) + 1`, then decrement
      with `t`, failing at the first character whose count is missing or zero. */
  method IsAnagram(s: string, t: string) returns (b: bool)
    ensures b <==> multiset(s) == multiset(t)
  {
    if |s| != |t| {
      return false;
    }
    var m := CountEach(s);
    FullCountsRemain(s);
    for j := 0 to |t|
      invariant Remaining(m, s, t[..j])
    {
      var c := t[j];
      if c !in m || m[c] == 0 {
        MissingCount(m, s, t, j);
        return false;
      }
      DecrementStep(m, s, t, j);
      m := m[c := m[c] - 1];
    }
    assert t[..|t|] == t;
    CountsBoundedSameLength(t, s);
    return true;
  }

  /** The frequency object after decrementing with the prefix `u` of `t`: it
      has the keys of `s`, each count lowered by the occurrences in `u`, and
      `u` holds no character more often than `s` does. */
  predicate Remaining(m: map<char, nat>, s: string, u: string)
  {
    && (forall c :: c in m <==> c in s)
    && (forall c | c in m :: m[c] + Count(u, c) == Count(s, c))
    && (forall c :: Count(u, c) <= Count(s, c))
  }

  /** Before the second loop, the table holds every count of `s`. */
  lemma {:induction false} FullCountsRemain(s: string)
    ensures Remaining(Frequency(s), s, [])
  {
    forall c
      ensures c in Frequency(s) <==> c in s
    {
    }
  }

  /** Decrementing a positive count moves one occurrence from the table to the read prefix of `t`. */
  lemma {:induction false} DecrementStep(m: map<char, nat>, s: string, t: string, j: nat)
    requires j < |t|
    requires Remaining(m, s, t[..j])
    requires t[j] in m && m[t[j]] > 0
    ensures Remaining(m[t[j] := m[t[j]] - 1], s, t[..j + 1])
  {
    assert t[..j + 1] == t[..j] + [t[j]];
    assert multiset(t[..j + 1]) == multiset(t[..j]) + multiset{t[j]};
  }

  /** A missing or zero count means `t` holds `t[j]` more often than `s`. */
  lemma {:induction false} MissingCount(m: map<char, nat>, s: string, t: string, j: nat)
    requires j < |t|
    requires Remaining(m, s, t[..j])
    requires t[j] !in m || m[t[j]] == 0
    ensures multiset(s) != multiset(t)
  {
    var c := t[j];
    assert t[..j + 1] == t[..j] + [c];
    assert t == t[..j + 1] + t[j + 1..];
    assert multiset(t[..j + 1]) == multiset(t[..j]) + multiset{c};
    if c !in m {
      assert c !in multiset(s);
    }
    assert multiset(t)[c] >= multiset(t[..j + 1])[c] > multiset(s)[c];
  }

  // ---------------------------------------------------------------------------
  // 2. isPalindrome
  // ---------------------------------------------------------------------------

  /** `s.replace(/[^a-zA-Z0-9]/g, '').toLowerCase()`: ASCII letters and digits only, in lower case. */
  function Normalize(s: string): (r: string)
    ensures |r| <= |s|
    ensures forall i | 0 <= i < |r| :: IsAlnum(r[i]) && !('A' <= r[i] <= 'Z')
    decreases |s|
  {
    if |s| == 0 then []
    else
      var p := Normalize(s[..|s| - 1]);
      var c := s[|s| - 1];
      if IsAlnum(c) then p + [ToLower(c)] else p
  }

  /** Normalising normalised text changes nothing. */
  lemma {:induction false} NormalizeIdempotent(s: string)
    ensures Normalize(Normalize(s)) == Normalize(s)
    decreases |s|
  {
    if |s| > 0 {
      var p := Normalize(s[..|s| - 1]);
      NormalizeIdempotent(s[..|s| - 1]);
      NormalizeClean(Normalize(s));
    }
  }

  /** Text already made of lower-case letters and digits is its own normal form. */
  lemma {:induction false} NormalizeClean(s: string)
    requires forall i | 0 <= i < |s| :: IsAlnum(s[i]) && !('A' <= s[i] <= 'Z')
    ensures Normalize(s) == s
    decreases |s|
  {
    if |s| > 0 {
      NormalizeClean(s[..|s| - 1]);
      assert s == s[..|s| - 1] + [s[|s| - 1]];
    }
  }

  /** Normalisation reads the text left to right: it distributes over concatenation. */
  lemma {:induction false} NormalizeAppend(a: string, b: string)
    ensures Normalize(a + b) == Normalize(a) + Normalize(b)
    decreases |b|
  {
    if |b| == 0 {
      assert a + b == a;
    } else {
      var b' := b[..|b| - 1];
      NormalizeAppend(a, b');
      assert (a + b)[..|a + b| - 1] == a + b';
    }
  }

  /** `isPalindrome(s)`: two pointers over the normalised text. */
  method IsPalindrome(s: string) returns (b: bool)
    ensures b <==> Normalize(s) == Reverse(Normalize(s))
  {
    var n := Normalize(s);
    var left, right := 0, |n| - 1;
    while left < right
      invariant 0 <= left && right == |n| - 1 - left && left <= right + 1
      invariant forall k | 0 <= k < left :: n[k] == n[|n| - 1 - k]
    {
      if n[left] != n[right] {
        assert Reverse(n)[left] != n[left];
        return false;
      }
      left := left + 1;
      right := right - 1;
    }
    assert forall k | 0 <= k < |n| :: n[k] == n[|n| - 1 - k] by {
      forall k | 0 <= k < |n|
        ensures n[k] == n[|n| - 1 - k]
      {
        if k > right {
          assert |n| - 1 - k < left;
        }
      }
    }
    return true;
  }

  /** The script's example normalises to the palindrome "amanaplanacanalpanama". */
  lemma {:induction false} PalindromeExample()
    ensures Normalize("A man, a plan, a canal: Panama") == "amanaplanacanalpanama"
  {
    PalindromeExampleParts();
    assert "A man," + " a plan," + (" a canal:" + " Panama") == "A man, a plan, a canal: Panama";
    assert "aman" + "aplan" + ("acanal" + "panama") == "amanaplanacanalpanama";
  }

  /** The example, normalised piece by piece. */
  lemma {:induction false} PalindromeExampleParts()
    ensures Normalize("A man," + " a plan," + (" a canal:" + " Panama"))
      == "aman" + "aplan" + ("acanal" + "panama")
  {
    var w1, w2, w3, w4 := "A man,", " a plan,", " a canal:", " Panama";
    NormalizeAppend(w1 + w2, w3 + w4);
    NormalizeAppend(w1, w2);
    NormalizeAppend(w3, w4);
    NormalizePiece1();
    NormalizePiece2();
    NormalizePiece3();
    NormalizePiece4();
  }

  /** ... and that text reads the same backwards, so `isPalindrome` answers true. */
  lemma {:induction false} PalindromeExampleIsPalindrome()
    ensures "amanaplanacanalpanama" == Reverse("amanaplanacanalpanama")
  {
  }

  /** Normalisation handles one more character by keeping it, lower-cased, or dropping it. */
  lemma {:induction false} NormalizeSnoc(s: string, c: char)
    ensures Normalize(s + [c]) == Normalize(s) + if IsAlnum(c) then [ToLower(c)] else []
  {
    assert (s + [c])[..|s|] == s;
  }

  lemma {:induction false} NormalizePiece1()
    ensures Normalize("A man,") == "aman"
  {
    assert "A" == [] + ['A'];
    NormalizeSnoc([], 'A');
    assert "A " == "A" + [' '];
    NormalizeSnoc("A", ' ');
    assert "A m" == "A " + ['m'];
    NormalizeSnoc("A ", 'm');
    assert "A ma" == "A m" + ['a'];
    NormalizeSnoc("A m", 'a');
    assert "A man" == "A ma" + ['n'];
    NormalizeSnoc("A ma", 'n');
    assert "A man," == "A man" + [','];
    NormalizeSnoc("A man", ',');
  }

  lemma {:induction false} NormalizePiece2()
    ensures Normalize(" a plan,") == "aplan"
  {
    assert " " == [] + [' '];
    NormalizeSnoc([], ' ');
    assert " a" == " " + ['a'];
    NormalizeSnoc(" ", 'a');
    assert " a " == " a" + [' '];
    NormalizeSnoc(" a", ' ');
    assert " a p" == " a " + ['p'];
    NormalizeSnoc(" a ", 'p');
    assert " a pl" == " a p" + ['l'];
    NormalizeSnoc(" a p", 'l');
    assert " a pla" == " a pl" + ['a'];
    NormalizeSnoc(" a pl", 'a');
    assert " a plan" == " a pla" + ['n'];
    NormalizeSnoc(" a pla", 'n');
    assert " a plan," == " a plan" + [','];
    NormalizeSnoc(" a plan", ',');
  }

  lemma {:induction false} NormalizePiece3()
    ensures Normalize(" a canal:") == "acanal"
  {
    assert " " == [] + [' '];
    NormalizeSnoc([], ' ');
    assert " a" == " " + ['a'];
    NormalizeSnoc(" ", 'a');
    assert " a " == " a" + [' '];
    NormalizeSnoc(" a", ' ');
    assert " a c" == " a " + ['c'];
    NormalizeSnoc(" a ", 'c');
    assert " a ca" == " a c" + ['a'];
    NormalizeSnoc(" a c", 'a');
    assert " a can" == " a ca" + ['n'];
    NormalizeSnoc(" a ca", 'n');
    assert " a cana" == " a can" + ['a'];
    NormalizeSnoc(" a can", 'a');
    assert " a canal" == " a cana" + ['l'];
    NormalizeSnoc(" a cana", 'l');
    assert " a canal:" == " a canal" + [':'];
    NormalizeSnoc(" a canal", ':');
  }

  lemma {:induction false} NormalizePiece4()
    ensures Normalize(" Panama") == "panama"
  {
    assert " " == [] + [' '];
    NormalizeSnoc([], ' ');
    assert " P" == " " + ['P'];
    NormalizeSnoc(" ", 'P');
    assert " Pa" == " P" + ['a'];
    NormalizeSnoc(" P", 'a');
    assert " Pan" == " Pa" + ['n'];
    NormalizeSnoc(" Pa", 'n');
    assert " Pana" == " Pan" + ['a'];
    NormalizeSnoc(" Pan", 'a');
    assert " Panam" == " Pana" + ['m'];
    NormalizeSnoc(" Pana", 'm');
    assert " Panama" == " Panam" + ['a'];
    NormalizeSnoc(" Panam", 'a');
  }

  // ---------------------------------------------------------------------------
  // 3. Fibonacci
  // ---------------------------------------------------------------------------

  /** `fibRecursive(n)`: `n` itself below 2 (negative `n` included). */
  function FibRecursive(n: int): (r: int)
    ensures n < 2 ==> r == n
    ensures n >= 0 ==> r >= 0
    ensures n >= 1 ==> r >= 1
    ensures n >= 2 ==> r >= n - 1
    decreases n
  {
    if n < 2 then n else FibRecursive(n - 1) + FibRecursive(n - 2)
  }

  /** `fibIterative(n)`: the pair `(a, b)` walks up the sequence from `(0, 1)`. */
  method FibIterative(n: int) returns (r: int)
    ensures r == FibRecursive(n)
  {
    if n < 2 {
      return n;
    }
    var a, b := 0, 1;
    for i := 2 to n + 1
      invariant a == FibRecursive(i - 2) && b == FibRecursive(i - 1)
    {
      var temp := a + b;
      a := b;
      b := temp;
    }
    return b;
  }

  /** The first `n` Fibonacci numbers add up to `fib(n + 1) - 1`. */
  lemma {:induction false} FibPrefixSum(n: nat)
    ensures Sum(seq(n, i requires 0 <= i < n => FibRecursive(i))) == FibRecursive(n + 1) - 1
    decreases n
  {
    if n > 0 {
      FibPrefixSum(n - 1);
      var s := seq(n, i requires 0 <= i < n => FibRecursive(i));
      assert s[..n - 1] == seq(n - 1, i requires 0 <= i < n - 1 => FibRecursive(i));
    }
  }

  lemma {:induction false} FibExamples()
    ensures FibRecursive(6) == 8
    ensures seq(7, i requires 0 <= i < 7 => FibRecursive(i)) == [0, 1, 1, 2, 3, 5, 8]
  {
  }

  // ---------------------------------------------------------------------------
  // 4. flatten
  // ---------------------------------------------------------------------------

  /** An array element: a non-array value, or a nested array. */
  datatype Item<T> = Value(v: T) | Array(items: seq<Item<T>>)

  /** Reference definition: the values of a nested array in left-to-right order, at any depth. */
  function Flat<T>(arr: seq<Item<T>>): seq<T>
    decreases arr
  {
    if |arr| == 0 then []
    else
      var last := arr[|arr| - 1];
      Flat(arr[..|arr| - 1]) + match last
        case Value(v) => [v]
        case Array(items) => Flat(items)
  }

  /** `flatten(arr)`: `for…of` the items, pushing values and spreading recursive results. */
  method Flatten<T>(arr: seq<Item<T>>) returns (result: seq<T>)
    ensures result == Flat(arr)
    decreases arr
  {
    result := [];
    for i := 0 to |arr|
      invariant result == Flat(arr[..i])
    {
      assert arr[..i + 1][..i] == arr[..i];
      match arr[i]
      case Array(items) =>
        var inner := Flatten(items);
        result := result + inner;
      case Value(v) =>
        result := result + [v];
    }
    assert arr[..|arr|] == arr;
  }

  /** Flattening distributes over concatenation. */
  lemma {:induction false} FlatAppend<T>(a: seq<Item<T>>, b: seq<Item<T>>)
    ensures Flat(a + b) == Flat(a) + Flat(b)
    decreases |b|
  {
    if |b| == 0 {
      assert a + b == a;
    } else {
      FlatAppend(a, b[..|b| - 1]);
      assert (a + b)[..|a + b| - 1] == a + b[..|b| - 1];
    }
  }

  /** An array without nested arrays flattens to its own values. */
  lemma {:induction false} FlatOfValues<T>(vs: seq<T>)
    ensures Flat(seq(|vs|, i requires 0 <= i < |vs| => Value(vs[i]))) == vs
    decreases |vs|
  {
    if |vs| > 0 {
      var p := vs[..|vs| - 1];
      FlatOfValues(p);
      var a := seq(|vs|, i requires 0 <= i < |vs| => Value(vs[i]));
      assert a[..|vs| - 1] == seq(|p|, i requires 0 <= i < |p| => Value(p[i]));
    }
  }

  /** The values wrapped back as array elements: an array with no nested arrays. */
  function AsItems<T>(vs: seq<T>): (arr: seq<Item<T>>)
    ensures |arr| == |vs| && forall i | 0 <= i < |vs| :: arr[i] == Value(vs[i])
  {
    seq(|vs|, i requires 0 <= i < |vs| => Value(vs[i]))
  }

  /** Flattening a flat array gives back its values, so flattening twice is flattening once. */
  lemma {:induction false} FlattenIdempotent<T>(arr: seq<Item<T>>)
    ensures Flat(AsItems(Flat(arr))) == Flat(arr)
    ensures forall vs: seq<T> :: Flat(AsItems(vs)) == vs
  {
    forall vs: seq<T>
      ensures Flat(AsItems(vs)) == vs
    {
      FlatOfValues(vs);
    }
  }

  /** The script's example `[1, [2, [3, 4], 5]]`. */
  lemma {:induction false} FlattenExample()
    ensures Flat([Value(1), Array([Value(2), Array([Value(3), Value(4)]), Value(5)])]) == [1, 2, 3, 4, 5]
  {
    var inner := [Value(3), Value(4)];
    assert inner[..1] == [Value(3)];
    assert Flat(inner) == [3, 4];
    var mid := [Value(2), Array(inner), Value(5)];
    assert mid[..2] == [Value(2), Array(inner)] && mid[..2][..1] == [Value(2)];
    assert Flat([Value(2)]) == [2];
    assert Flat(mid[..2]) == [2, 3, 4];
    assert Flat(mid) == [2, 3, 4, 5];
    var outer := [Value(1), Array(mid)];
    assert outer[..1] == [Value(1)];
  }
}
