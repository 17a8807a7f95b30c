/**
 The four patterns of advanced_coding_patterns.js: a sliding window, the
 two-pointer merge, bracket matching with a stack, and anagram grouping in a
 plain object keyed by the sorted word.
 */
module AdvancedPatterns {
  import opened Common
  import opened JsObjects
  import opened Anagrams
  import ObjectsPractise

  // ---------------------------------------------------------------------------
  // 1. maxSubarraySum
  // ---------------------------------------------------------------------------

  /** The sum of the `k` elements starting at `i`. */
  function WindowSum(arr: seq<int>, i: nat, k: nat): int
    requires i + k <= |arr|
  {
    Sum(arr[i..i + k])
  }

  /** Moving the window one place drops its first element and adds the next one. */
  lemma {:induction false} WindowSlide(arr: seq<int>, i: nat, k: nat)
    requires i + k < |arr|
    ensures WindowSum(arr, i + 1, k) == WindowSum(arr, i, k) - arr[i] + arr[i + k]
  {
    var w := arr[i..i + k + 1];
    assert w == arr[i..i + k] + [arr[i + k]];
    assert w == [arr[i]] + arr[i + 1..i + 1 + k];
    SumAppend(arr[i..i + k], [arr[i + k]]);
    SumCons(arr[i], arr[i + 1..i + 1 + k]);
    assert Sum([arr[i + k]]) == arr[i + k];
  }

  /** The first loop of `maxSubarraySum`: the sum of the first `k` elements. */
  method FirstWindow(arr: seq<int>, k: nat) returns (maxSum: int)
    requires k <= |arr|
    ensures maxSum == WindowSum(arr, 0, k)
  {
    maxSum := 0;
    for i := 0 to k
      invariant maxSum == Sum(arr[..i])
    {
      assert arr[..i + 1][..i] == arr[..i];
      maxSum := maxSum + arr[i];
    }
    assert arr[..k] == arr[0..0 + k];
  }

  /** `maxSubarraySum(arr, k)`: `null` when the array is shorter than `k`,
      otherwise the largest sum of `k` consecutive elements. */
  method MaxSubarraySum(arr: seq<int>, k: nat) returns (r: Option<int>)
    ensures r.None? <==> |arr| < k
    ensures r.Some? ==> exists j | 0 <= j <= |arr| - k :: r.value == WindowSum(arr, j, k)
    ensures r.Some? ==> forall j | 0 <= j <= |arr| - k :: WindowSum(arr, j, k) <= r.value
  {
    if |arr| < k {
      return None;
    }
    var maxSum := FirstWindow(arr, k);
    var tempSum := maxSum;
    ghost var at: nat := 0;
    for i := k to |arr|
      invariant tempSum == WindowSum(arr, i - k, k)
      invariant at <= i - k && maxSum == WindowSum(arr, at, k)
      invariant forall j | 0 <= j <= i - k :: WindowSum(arr, j, k) <= maxSum
    {
      WindowSlide(arr, i - k, k);
      tempSum := tempSum - arr[i - k] + arr[i];
      assert tempSum == WindowSum(arr, i - k + 1, k);
      if tempSum > maxSum {
        maxSum := tempSum;
        at := i - k + 1;
      }
      assert WindowSum(arr, i - k + 1, k) <= maxSum;
    }
    assert 0 <= at <= |arr| - k && maxSum == WindowSum(arr, at, k);
    r := Some(maxSum);
  }

  // ---------------------------------------------------------------------------
  // 2. mergeSortedArrays
  // ---------------------------------------------------------------------------

  /** Reference merge: the smaller head goes first; on a tie the head of `b` does. */
  function Merge(a: seq<int>, b: seq<int>): seq<int>
    decreases |a| + |b|
  {
    if |a| == 0 then b
    else if |b| == 0 then a
    else if a[0] < b[0] then [a[0]] + Merge(a[1..], b)
    else [b[0]] + Merge(a, b[1..])
  }

  /** The first loop of `mergeSortedArrays`: while both arrays have elements
      left, the smaller head is pushed, the head of `arr2` on a tie. */
  method MergeWhileBoth(arr1: seq<int>, arr2: seq<int>) returns (merged: seq<int>, i: nat, j: nat)
    ensures i <= |arr1| && j <= |arr2| && (i == |arr1| || j == |arr2|)
    ensures merged + Merge(arr1[i..], arr2[j..]) == Merge(arr1, arr2)
  {
    merged := [];
    i, j := 0, 0;
    while i < |arr1| && j < |arr2|
      invariant i <= |arr1| && j <= |arr2|
      invariant merged + Merge(arr1[i..], arr2[j..]) == Merge(arr1, arr2)
      decreases |arr1| - i + |arr2| - j
    {
      MergeHeads(arr1, arr2, i, j);
      if arr1[i] < arr2[j] {
        PushHead(merged, arr1[i], Merge(arr1[i + 1..], arr2[j..]), Merge(arr1, arr2));
        merged := merged + [arr1[i]];
        i := i + 1;
      } else {
        PushHead(merged, arr2[j], Merge(arr1[i..], arr2[j + 1..]), Merge(arr1, arr2));
        merged := merged + [arr2[j]];
        j := j + 1;
      }
    }
  }

  /** One step of the reference merge on the unread parts of both arrays. */
  lemma {:induction false} MergeHeads(a: seq<int>, b: seq<int>, i: nat, j: nat)
    requires i < |a| && j < |b|
    ensures a[i] < b[j] ==> Merge(a[i..], b[j..]) == [a[i]] + Merge(a[i + 1..], b[j..])
    ensures a[i] >= b[j] ==> Merge(a[i..], b[j..]) == [b[j]] + Merge(a[i..], b[j + 1..])
  {
    assert a[i..][1..] == a[i + 1..];
    assert b[j..][1..] == b[j + 1..];
  }

  /** Moving the head of the rest onto the output keeps output-then-rest the same. */
  lemma {:induction false} PushHead(out: seq<int>, x: int, rest: seq<int>, total: seq<int>)
    requires out + ([x] + rest) == total
    ensures (out + [x]) + rest == total
  {
    assert out + ([x] + rest) == (out + [x]) + rest;
  }

  /** Once one side is used up, the merge is the other side's rest. */
  lemma {:induction false} MergeRest(a: seq<int>, b: seq<int>)
    requires |a| == 0 || |b| == 0
    ensures Merge(a, b) == a + b
  {
    if |a| == 0 {
      assert a + b == b;
    } else {
      assert a + b == a;
    }
  }

  /** The two leftover loops of `mergeSortedArrays`, each pushing the rest of one array in order. */
  method PushRest(merged: seq<int>, arr: seq<int>, from: nat) returns (r: seq<int>)
    requires from <= |arr|
    ensures r == merged + arr[from..]
  {
    r := merged;
    var i := from;
    while i < |arr|
      invariant from <= i <= |arr|
      invariant r == merged + arr[from..i]
    {
      assert arr[from..i + 1] == arr[from..i] + [arr[i]];
      r := r + [arr[i]];
      i := i + 1;
    }
  }

  /** `mergeSortedArrays`: the two-pointer loop, then the leftovers of either array. */
  method MergeSortedArrays(arr1: seq<int>, arr2: seq<int>) returns (merged: seq<int>)
    ensures merged == Merge(arr1, arr2)
    ensures multiset(merged) == multiset(arr1) + multiset(arr2)
  {
    var head, i, j := MergeWhileBoth(arr1, arr2);
    MergeRest(arr1[i..], arr2[j..]);
    var withFirst := PushRest(head, arr1, i);
    merged := PushRest(withFirst, arr2, j);
    assert merged == head + (arr1[i..] + arr2[j..]);
    MergePermutation(arr1, arr2);
  }

  lemma {:induction false} MergePermutation(a: seq<int>, b: seq<int>)
    ensures multiset(Merge(a, b)) == multiset(a) + multiset(b)
    decreases |a| + |b|
  {
    if |a| > 0 && |b| > 0 {
      if a[0] < b[0] {
        MergePermutation(a[1..], b);
        HeadSplit(a);
        assert multiset(Merge(a, b)) == multiset{a[0]} + multiset(Merge(a[1..], b));
      } else {
        MergePermutation(a, b[1..]);
        HeadSplit(b);
        assert multiset(Merge(a, b)) == multiset{b[0]} + multiset(Merge(a, b[1..]));
      }
    }
  }

  /** A value at most both heads is at most every element of the merge. */
  lemma {:induction false} MergeLowerBound(a: seq<int>, b: seq<int>, x: int)
    requires Ascending(a) && Ascending(b)
    requires |a| > 0 ==> x <= a[0]
    requires |b| > 0 ==> x <= b[0]
    ensures forall y | y in Merge(a, b) :: x <= y
  {
    MergePermutation(a, b);
    forall y | y in Merge(a, b)
      ensures x <= y
    {
      assert y in multiset(Merge(a, b));
      if y in a {
        var p :| 0 <= p < |a| && a[p] == y;
        assert a[0] <= a[p];
      } else {
        assert y in multiset(b);
        var p :| 0 <= p < |b| && b[p] == y;
        assert b[0] <= b[p];
      }
    }
  }

  lemma {:induction false} AscendingCons(x: int, rest: seq<int>)
    requires Ascending(rest)
    requires forall y | y in rest :: x <= y
    ensures Ascending([x] + rest)
  {
    var m := [x] + rest;
    forall i, j | 0 <= i < j < |m|
      ensures m[i] <= m[j]
    {
      assert m[j] == rest[j - 1] && rest[j - 1] in rest;
      if i > 0 {
        assert m[i] == rest[i - 1];
      }
    }
  }

  /** Merging two sorted arrays gives a sorted array. */
  lemma {:induction false} MergeSorted(a: seq<int>, b: seq<int>)
    requires Ascending(a) && Ascending(b)
    ensures Ascending(Merge(a, b))
    decreases |a| + |b|
  {
    if |a| > 0 && |b| > 0 {
      if a[0] < b[0] {
        MergeSorted(a[1..], b);
        MergeLowerBound(a[1..], b, a[0]);
        AscendingCons(a[0], Merge(a[1..], b));
      } else {
        MergeSorted(a, b[1..]);
        MergeLowerBound(a, b[1..], b[0]);
        AscendingCons(b[0], Merge(a, b[1..]));
      }
    }
  }

  lemma {:induction false} MergeExample()
    ensures Merge([1, 3, 5], [2, 4, 6]) == [1, 2, 3, 4, 5, 6]
  {
    assert [1, 3, 5][1..] == [3, 5] && [3, 5][1..] == [5] && [5][1..] == [];
    assert [2, 4, 6][1..] == [4, 6] && [4, 6][1..] == [6] && [6][1..] == [];
  }

  // ---------------------------------------------------------------------------
  // 3. isValidParentheses
  // ---------------------------------------------------------------------------

  datatype Bracket = Paren | Brace | Square

  function OpenChar(b: Bracket): char
  {
    match b
    case Paren => '('
    case Brace => '{'
    case Square => '['
  }

  /** The object `map`: each opening bracket to its closing one. */
  function CloseChar(b: Bracket): char
  {
    match b
    case Paren => ')'
    case Brace => '}'
    case Square => ']'
  }

  /** `map[char]` is truthy exactly for the three opening brackets. */
  function Opener(c: char): (r: Option<Bracket>)
    ensures r.Some? ==> OpenChar(r.value) == c
    ensures r.None? ==> forall b :: OpenChar(b) != c
  {
    if c == '(' then Some(Paren)
    else if c == '{' then Some(Brace)
    else if c == '[' then Some(Square)
    else None
  }

  /** The stack machine: an opening bracket pushes its closer; any other
      character must equal the popped top. `None` is the early `return false`;
      otherwise the stack left at the end. */
  function Scan(s: string, stack: seq<char>): Option<seq<char>>
    decreases |s|
  {
    if |s| == 0 then Some(stack)
    else match Opener(s[0])
      case Some(b) => Scan(s[1..], stack + [CloseChar(b)])
      case None =>
        if |stack| > 0 && stack[|stack| - 1] == s[0] then Scan(s[1..], stack[..|stack| - 1])
        else None
  }

  /** `isValidParentheses(s)`. */
  method IsValidParentheses(s: string) returns (r: bool)
    ensures r <==> Scan(s, []) == Some([])
    ensures r <==> exists f :: Render(f) == s
  {
    var stack: seq<char> := [];
    for i := 0 to |s|
      invariant Scan(s, []) == Scan(s[i..], stack)
    {
      assert s[i..][1..] == s[i + 1..];
      match Opener(s[i])
      case Some(b) =>
        stack := stack + [CloseChar(b)];
      case None =>
        if |stack| == 0 || stack[|stack| - 1] != s[i] {
          WellNestedIffValid(s);
          return false;
        }
        stack := stack[..|stack| - 1];
    }
    WellNestedIffValid(s);
    r := |stack| == 0;
  }

  /** Independent definition of well-nested text: a forest of bracket pairs,
      each enclosing its own forest (`inner`) and followed by its siblings (`next`). */
  datatype Forest = Empty | Node(b: Bracket, inner: Forest, next: Forest)

  function Render(f: Forest): string
  {
    match f
    case Empty => []
    case Node(b, inner, next) => [OpenChar(b)] + Render(inner) + [CloseChar(b)] + Render(next)
  }

  /** Text made of the forests `fs` separated by the characters that the stack
      `stack` pops, top first: what a scan from `stack` accepts when it ends with an empty stack. */
  function Weave(fs: seq<Forest>, stack: seq<char>): string
    requires |fs| == |stack| + 1
    decreases |stack|
  {
    if |stack| == 0 then Render(fs[0])
    else Render(fs[0]) + [stack[|stack| - 1]] + Weave(fs[1..], stack[..|stack| - 1])
  }

  /** Well-nested text leaves the stack as it found it. */
  lemma {:induction false} ScanRender(f: Forest, t: string, stack: seq<char>)
    ensures Scan(Render(f) + t, stack) == Scan(t, stack)
    decreases f
  {
    match f
    case Empty =>
      assert Render(f) + t == t;
    case Node(b, inner, next) =>
      var c := CloseChar(b);
      var rest := Render(next) + t;
      var u := [c] + rest;
      assert Scan(Render(f) + t, stack) == Scan(Render(inner) + u, stack + [c]) by {
        assert Render(f) + t == [OpenChar(b)] + (Render(inner) + u);
        ScanOpen(b, Render(inner) + u, stack);
      }
      assert Scan(Render(inner) + u, stack + [c]) == Scan(u, stack + [c]) by {
        ScanRender(inner, u, stack + [c]);
      }
      assert Scan(u, stack + [c]) == Scan(rest, stack) by {
        assert Opener(c).None? by {
          match b
          case Paren =>
          case Brace =>
          case Square =>
        }
        ScanClose(c, rest, stack);
      }
      assert Scan(rest, stack) == Scan(t, stack) by {
        ScanRender(next, t, stack);
      }
  }

  /** Reading an opening bracket pushes its closer. */
  lemma {:induction false} ScanOpen(b: Bracket, u: string, stack: seq<char>)
    ensures Scan([OpenChar(b)] + u, stack) == Scan(u, stack + [CloseChar(b)])
  {
    assert ([OpenChar(b)] + u)[1..] == u;
  }

  /** Reading the closer on top of the stack pops it. */
  lemma {:induction false} ScanClose(c: char, u: string, stack: seq<char>)
    requires Opener(c).None?
    ensures Scan([c] + u, stack + [c]) == Scan(u, stack)
  {
    assert ([c] + u)[1..] == u;
    assert (stack + [c])[..|stack|] == stack;
  }

  /** A scan that ends with an empty stack has read a weave of forests around the popped closers. */
  lemma {:induction false} ScanComplete(s: string, stack: seq<char>) returns (fs: seq<Forest>)
    requires Scan(s, stack) == Some([])
    ensures |fs| == |stack| + 1 && Weave(fs, stack) == s
    decreases |s|
  {
    if |s| == 0 {
      fs := [Empty];
      return;
    }
    match Opener(s[0])
    case Some(b) =>
      var gs := ScanComplete(s[1..], stack + [CloseChar(b)]);
      fs := WeaveOpen(b, gs, stack);
      assert s == [s[0]] + s[1..];
    case None =>
      var gs := ScanComplete(s[1..], stack[..|stack| - 1]);
      fs := [Empty] + gs;
      assert fs[1..] == gs;
  }

  /** An opening bracket before a weave over the grown stack closes the first
      forest of that weave into a node, giving a weave over the old stack. */
  lemma {:induction false} WeaveOpen(b: Bracket, gs: seq<Forest>, stack: seq<char>) returns (fs: seq<Forest>)
    requires |gs| == |stack| + 2
    ensures |fs| == |stack| + 1
    ensures Weave(fs, stack) == [OpenChar(b)] + Weave(gs, stack + [CloseChar(b)])
  {
    var c := CloseChar(b);
    var g := gs[1];
    var rest := gs[2..];
    fs := [Node(b, gs[0], g)] + rest;
    assert Weave(gs, stack + [c]) == Render(gs[0]) + [c] + Weave(gs[1..], stack) by {
      assert (stack + [c])[..|stack|] == stack;
    }
    if |stack| == 0 {
      assert Weave(gs[1..], stack) == Render(g);
    } else {
      var top, below := stack[|stack| - 1], stack[..|stack| - 1];
      assert Weave(gs[1..], stack) == Render(g) + [top] + Weave(rest, below) by {
        assert gs[1..][1..] == rest;
      }
      assert Weave(fs, stack) == Render(fs[0]) + [top] + Weave(rest, below) by {
        assert fs[1..] == rest;
      }
    }
  }

  /** The stack machine accepts exactly the well-nested texts. */
  lemma {:induction false} WellNestedIffValid(s: string)
    ensures Scan(s, []) == Some([]) <==> exists f :: Render(f) == s
  {
    if Scan(s, []) == Some([]) {
      var fs := ScanComplete(s, []);
      assert Render(fs[0]) == s;
    }
    if f :| Render(f) == s {
      ScanRender(f, [], []);
      assert Render(f) + [] == s;
    }
  }

  predicate IsBracket(c: char)
  {
    c in "()[]{}"
  }

  /** Well-nested text holds nothing but brackets. */
  lemma {:induction false} RenderOnlyBrackets(f: Forest)
    ensures forall i | 0 <= i < |Render(f)| :: IsBracket(Render(f)[i])
    decreases f
  {
    match f
    case Empty =>
    case Node(b, inner, next) =>
      RenderOnlyBrackets(inner);
      RenderOnlyBrackets(next);
      var r := Render(f);
      var a := [OpenChar(b)] + Render(inner) + [CloseChar(b)];
      assert r == a + Render(next);
      forall i | 0 <= i < |r|
        ensures IsBracket(r[i])
      {
        if i >= |a| {
          assert r[i] == Render(next)[i - |a|];
        } else if 0 < i < |a| - 1 {
          assert r[i] == Render(inner)[i - 1];
        }
      }
  }

  /** Any character other than the six brackets makes the text invalid. */
  lemma {:induction false} NonBracketInvalid(s: string, i: nat)
    requires i < |s| && !IsBracket(s[i])
    ensures Scan(s, []) != Some([])
  {
    if Scan(s, []) == Some([]) {
      WellNestedIffValid(s);
      var f :| Render(f) == s;
      RenderOnlyBrackets(f);
    }
  }

  /** The empty text is valid; a leftover opener or an unmatched closer is not. */
  lemma {:induction false} ParenthesesEdgeCases()
    ensures Scan("", []) == Some([])
    ensures Scan("(", []) == Some([')'])
    ensures Scan(")", []) == None
  {
    assert "("[1..] == "" && [] + [CloseChar(Paren)] == [')'];
  }

  /** The script's examples: "{[]}" is accepted and "{[}]" is refused. */
  lemma {:induction false} ParenthesesExamples()
    ensures Scan("{[]}", []) == Some([])
    ensures Scan("{[}]", []) == None
  {
    ParenthesesAccepted();
    ParenthesesRefused();
  }

  lemma {:induction false} ParenthesesAccepted()
    ensures Scan("{[]}", []) == Some([])
  {
    assert "}"[1..] == "" && ['}'][..0] == [];
    assert Scan("}", ['}']) == Some([]);
    assert "]}"[1..] == "}" && ['}', ']'][..1] == ['}'];
    assert Scan("]}", ['}', ']']) == Some([]);
    assert "[]}"[1..] == "]}" && ['}'] + [']'] == ['}', ']'];
    assert Scan("[]}", ['}']) == Some([]);
    assert "{[]}"[1..] == "[]}" && [] + ['}'] == ['}'];
  }

  lemma {:induction false} ParenthesesRefused()
    ensures Scan("{[}]", []) == None
  {
    assert "}]"[0] == '}' && Opener('}') == None;
    assert ['}', ']'][1] == ']';
    assert Scan("}]", ['}', ']']) == None;
    assert "[}]"[0] == '[' && Opener('[') == Some(Square);
    assert "[}]"[1..] == "}]" && ['}'] + [']'] == ['}', ']'];
    assert Scan("[}]", ['}']) == None;
    assert "{[}]"[1..] == "[}]" && [] + ['}'] == ['}'];
  }

  // ---------------------------------------------------------------------------
  // 4. groupAnagrams
  // ---------------------------------------------------------------------------

  /** `groupAnagrams`: words filed under their sorted letters in a plain object,
      whose values come out in the object's key order. */
  function GroupAnagrams(words: seq<string>): (gs: seq<seq<string>>)
    ensures multiset(Concat(gs)) == multiset(words)
    ensures forall i | 0 <= i < |gs| :: |gs[i]| > 0
  {
    var m := GroupBy(words, PlainKey);
    var order := StringKeyOrder(m.keys);
    GroupingProperties(words, PlainKey, order);
    GroupsOf(m.vals, order)
  }

  /** Each group holds exactly the input's anagrams of any of its words, in input order. */
  lemma {:induction false} GroupAnagramsAreAnagramClasses(words: seq<string>, i: nat, w: string)
    requires i < |GroupAnagrams(words)| && w in GroupAnagrams(words)[i]
    ensures w in words
    ensures GroupAnagrams(words)[i] == Filter(words, ObjectsPractise.AnagramOf(w))
  {
    var m := GroupBy(words, PlainKey);
    var order := StringKeyOrder(m.keys);
    GroupingProperties(words, PlainKey, order);
    assert GroupAnagrams(words)[i] == Members(words, PlainKey, order[i]);
    MembersArePlainAnagrams(words, w, order[i]);
  }

  lemma {:induction false} MembersArePlainAnagrams(words: seq<string>, w: string, k: string)
    requires PlainKey(w) == k
    ensures Members(words, PlainKey, k) == Filter(words, ObjectsPractise.AnagramOf(w))
    decreases |words|
  {
    if |words| > 0 {
      var v := words[|words| - 1];
      MembersArePlainAnagrams(words[..|words| - 1], w, k);
      PlainKeyIffAnagram(v, w);
    }
  }

  /** For words of letters only no key is an array index, so the groups come in first-seen order. */
  lemma {:induction false} GroupAnagramsLetterWordsInsertionOrder(words: seq<string>)
    requires forall i, j | 0 <= i < |words| && 0 <= j < |words[i]| :: IsLetter(words[i][j])
    ensures var m := GroupBy(words, PlainKey);
      GroupAnagrams(words) == GroupsOf(m.vals, m.keys)
  {
    var m := GroupBy(words, PlainKey);
    GroupByKeys(words, PlainKey);
    forall i | 0 <= i < |m.keys|
      ensures !IsIndexKey(m.keys[i])
    {
      assert m.keys[i] in KeysOf(words, PlainKey);
      var j :| 0 <= j < |words| && KeysOf(words, PlainKey)[j] == m.keys[i];
      LetterWordKeysAreNotIndices(words[j]);
    }
    NoIndexKeysKeepInsertionOrder(m.keys);
  }
}
