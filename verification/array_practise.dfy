/**
 The array exercises of array.js (Q1-Q7): traversal, in-place two-pointer
 routines and the hash-map two-sum. An in-place routine is modelled as a
 method that receives the array's contents and returns its contents after the
 call; a routine that also returns the array returns those contents.
 */
module ArrayPractise {
  import opened Common
  import ObjectsPractise

  // ---------------------------------------------------------------------------
  // Q1: findMaxMin
  // ---------------------------------------------------------------------------

  /** A number that may be one of the seeds `-Infinity` and `Infinity`. */
  datatype Extended = NegInf | Fin(n: int) | PosInf

  predicate Greater(a: int, b: Extended)
  {
    match b
    case NegInf => true
    case Fin(n) => a > n
    case PosInf => false
  }

  predicate Less(a: int, b: Extended)
  {
    match b
    case NegInf => false
    case Fin(n) => a < n
    case PosInf => true
  }

  /** The object `{ max, min }`. */
  datatype MaxMin = MaxMin(max: Extended, min: Extended)

  /** Q1 `findMaxMin`: the seeds survive only for the empty array; otherwise
      both bounds are elements and enclose every element. */
  method FindMaxMin(arr: seq<int>) returns (ans: MaxMin)
    ensures |arr| == 0 <==> ans == MaxMin(NegInf, PosInf)
    ensures |arr| > 0 ==> ans.max.Fin? && ans.min.Fin? && ans.max.n in arr && ans.min.n in arr
    ensures |arr| > 0 ==> forall i | 0 <= i < |arr| :: ans.min.n <= arr[i] <= ans.max.n
  {
    ans := MaxMin(NegInf, PosInf);
    for i := 0 to |arr|
      invariant i == 0 <==> ans == MaxMin(NegInf, PosInf)
      invariant i > 0 ==> ans.max.Fin? && ans.min.Fin? && ans.max.n in arr[..i] && ans.min.n in arr[..i]
      invariant i > 0 ==> forall k | 0 <= k < i :: ans.min.n <= arr[k] <= ans.max.n
    {
      var a := arr[i];
      assert arr[..i + 1] == arr[..i] + [a];
      if Greater(a, ans.max) {
        ans := ans.(max := Fin(a));
      }
      if Less(a, ans.min) {
        ans := ans.(min := Fin(a));
      }
    }
    assert arr[..|arr|] == arr;
  }

  // ---------------------------------------------------------------------------
  // Q2: reverseArray / swap
  // ---------------------------------------------------------------------------

  /** Q2 `reverseArray`: swaps from both ends towards the middle. */
  method ReverseArray(arr: seq<int>) returns (r: seq<int>)
    ensures |r| == |arr|
    ensures forall i | 0 <= i < |arr| :: r[i] == arr[|arr| - 1 - i]
    ensures multiset(r) == multiset(arr)
  {
    r := arr;
    var left, right := 0, |arr| - 1;
    while left < right
      invariant 0 <= left && right == |arr| - 1 - left
      invariant left <= right + 1
      invariant |r| == |arr|
      invariant multiset(r) == multiset(arr)
      invariant forall k | 0 <= k < left :: r[k] == arr[|arr| - 1 - k]
      invariant forall k | right < k < |arr| :: r[k] == arr[|arr| - 1 - k]
      invariant forall k | left <= k <= right :: r[k] == arr[k]
    {
      r := Swap(r, left, right);
      left := left + 1;
      right := right - 1;
    }
  }

  // ---------------------------------------------------------------------------
  // Q3: removeDuplicates on a sorted array
  // ---------------------------------------------------------------------------

  /** Reference definition: runs of equal adjacent elements collapsed to one. */
  function Collapse(s: seq<int>): (r: seq<int>)
    ensures |s| > 0 ==> |r| > 0 && r[|r| - 1] == s[|s| - 1]
    ensures |r| <= |s|
    decreases |s|
  {
    if |s| <= 1 then s
    else
      var p := Collapse(s[..|s| - 1]);
      if s[|s| - 1] != s[|s| - 2] then p + [s[|s| - 1]] else p
  }

  /** Q3 `removeDuplicates`: `undefined` for the empty array; otherwise copies
      each element that differs from its predecessor to the write position `idx`
      and returns `arr.slice(0, idx)`. */
  method RemoveDuplicates(arr: seq<int>) returns (r: Option<seq<int>>)
    ensures |arr| == 0 <==> r.None?
    ensures r.Some? ==> r.value == Collapse(arr)
  {
    if |arr| == 0 {
      return None;
    }
    var a := arr;
    var idx := 1;
    assert arr[..1] == [arr[0]];
    for i := 1 to |arr|
      invariant 1 <= idx <= i
      invariant |a| == |arr|
      invariant a[..idx] == Collapse(arr[..i])
      invariant a[i..] == arr[i..]
      invariant a[i - 1] == arr[i - 1]
    {
      assert arr[..i + 1][..i] == arr[..i];
      if a[i] != a[i - 1] {
        a := a[idx := a[i]];
        idx := idx + 1;
      }
      assert a[i] == arr[i];
    }
    assert arr[..|arr|] == arr;
    r := Some(a[..idx]);
  }

  /** Collapsing keeps exactly the values of the input. */
  lemma {:induction false} CollapseMembers(s: seq<int>)
    ensures forall x :: x in Collapse(s) <==> x in s
    decreases |s|
  {
    if |s| > 1 {
      var p := s[..|s| - 1];
      CollapseMembers(p);
      LastSplit(s);
      var c := Collapse(p);
      assert c[|c| - 1] == s[|s| - 2];
    }
  }

  /** On a sorted array the result is strictly increasing and holds the same values. */
  lemma {:induction false} CollapseSorted(s: seq<int>)
    requires Ascending(s)
    ensures StrictlyIncreasing(Collapse(s))
    ensures forall x :: x in Collapse(s) <==> x in s
    decreases |s|
  {
    CollapseMembers(s);
    if |s| > 1 {
      var p := s[..|s| - 1];
      var last := s[|s| - 1];
      AscendingPrefix(s);
      CollapseSorted(p);
      var c := Collapse(p);
      if last != s[|s| - 2] {
        forall i | 0 <= i < |c|
          ensures c[i] < last
        {
          PrefixBelowLast(s, c[i]);
        }
        assert StrictlyIncreasing(c + [last]);
      }
    }
  }

  lemma {:induction false} AscendingPrefix(s: seq<int>)
    requires Ascending(s) && |s| > 0
    ensures Ascending(s[..|s| - 1])
  {
    var p := s[..|s| - 1];
    forall i, j | 0 <= i < j < |p|
      ensures p[i] <= p[j]
    {
      assert p[i] == s[i] && p[j] == s[j];
    }
  }

  /** In a sorted array whose last two elements differ, everything before the last is smaller than it. */
  lemma {:induction false} PrefixBelowLast(s: seq<int>, x: int)
    requires Ascending(s) && |s| > 1 && s[|s| - 1] != s[|s| - 2]
    requires x in s[..|s| - 1]
    ensures x < s[|s| - 1]
  {
    var j :| 0 <= j < |s| - 1 && s[..|s| - 1][j] == x;
    assert s[j] <= s[|s| - 2] <= s[|s| - 1];
  }

  // ---------------------------------------------------------------------------
  // Q4: missingNumber
  // ---------------------------------------------------------------------------

  /** The values 1, 2, ..., n. */
  function Range(n: nat): (r: seq<int>)
    ensures |r| == n
    ensures forall i | 0 <= i < n :: r[i] == i + 1
  {
    seq(n, i requires 0 <= i < n => i + 1)
  }

  lemma {:induction false} RangeSum(n: nat)
    ensures 2 * Sum(Range(n)) == n * (n + 1)
    decreases n
  {
    if n > 0 {
      RangeSum(n - 1);
      assert Range(n)[..n - 1] == Range(n - 1);
    }
  }

  /** Q4 `missingNumber`: `n * (n + 1) / 2` minus the running sum of the elements. */
  method MissingNumber(arr: seq<int>, n: int) returns (r: int)
    ensures r == n * (n + 1) / 2 - Sum(arr)
  {
    var expectedSum := (n * (n + 1)) / 2;
    var actualSum := 0;
    for i := 0 to |arr|
      invariant actualSum == Sum(arr[..i])
    {
      assert arr[..i + 1][..i] == arr[..i];
      actualSum := actualSum + arr[i];
    }
    assert arr[..|arr|] == arr;
    r := expectedSum - actualSum;
  }

  /** If `arr` holds 1..n except `k`, in any order, the result is `k`. */
  lemma {:induction false} MissingNumberFindsGap(arr: seq<int>, n: nat, k: int, r: int)
    requires multiset(arr) + multiset{k} == multiset(Range(n))
    requires r == n * (n + 1) / 2 - Sum(arr)
    ensures r == k
  {
    RangeSum(n);
    assert n * (n + 1) / 2 == Sum(Range(n));
    SumPermutation(arr + [k], Range(n));
    SumAppend(arr, [k]);
    assert Sum([k]) == k;
  }

  // ---------------------------------------------------------------------------
  // Q5: rotateArray / reverse
  // ---------------------------------------------------------------------------

  /** `reverse(arr, start, end)`: swaps inward while `start < end`, reversing
      positions start..end and leaving every other position alone. */
  method ReverseRange(a: seq<int>, start: int, end: int) returns (r: seq<int>)
    requires start < end ==> 0 <= start && end < |a|
    ensures |r| == |a|
    ensures forall i | 0 <= i < |a| && !(start <= i <= end) :: r[i] == a[i]
    ensures forall i | 0 <= i < |a| && start <= i <= end :: r[i] == a[start + end - i]
    ensures multiset(r) == multiset(a)
  {
    var s;
    r, s := InwardSwaps(a, start, end);
    RangeReversedWhenMet(a, r, start, end, s);
  }

  /** The `while (start < end)` loop of `reverse`: `s` is the left pointer when the pointers meet. */
  method InwardSwaps(a: seq<int>, start: int, end: int) returns (r: seq<int>, s: int)
    requires start < end ==> 0 <= start && end < |a|
    ensures start + end - s <= s
    ensures start < end ==> start <= s <= start + end - s + 1
    ensures start >= end ==> s == start
    ensures multiset(r) == multiset(a)
    ensures EndsReversed(a, r, start, end, s)
  {
    r := a;
    s := start;
    var e := end;
    while s < e
      invariant e == start + end - s
      invariant start < end ==> start <= s && e <= end && s <= e + 1
      invariant start >= end ==> s == start
      invariant multiset(r) == multiset(a)
      invariant EndsReversed(a, r, start, end, s)
    {
      assert start < end && 0 <= start <= s < e <= end < |a|;
      r := SwapEnds(a, r, start, end, s);
      s := s + 1;
      e := e - 1;
    }
  }

  /** The loop body's swap of `arr[start]` and `arr[end]`. */
  method SwapEnds(a: seq<int>, r: seq<int>, start: int, end: int, s: int) returns (next: seq<int>)
    requires 0 <= start <= s < start + end - s <= end < |a|
    requires EndsReversed(a, r, start, end, s)
    ensures multiset(next) == multiset(r)
    ensures EndsReversed(a, next, start, end, s + 1)
  {
    next := Swap(r, s, start + end - s);
    RangeSwapStep(a, r, next, start, end, s);
  }

  /** Positions `start..s-1` and their mirror images up to `end` are reversed; every other position is untouched. */
  predicate EndsReversed(a: seq<int>, r: seq<int>, start: int, end: int, s: int)
  {
    && |r| == |a|
    && forall i {:trigger r[i]} | 0 <= i < |a| ::
      if start <= i < s || start + end - s < i <= end
      then 0 <= start + end - i < |a| && r[i] == a[start + end - i]
      else r[i] == a[i]
  }

  /** One swap of `arr[start]` and `arr[end]` extends the reversed ends by one position each. */
  lemma {:induction false} RangeSwapStep(a: seq<int>, r: seq<int>, next: seq<int>, start: int, end: int, s: int)
    requires 0 <= start <= s < start + end - s <= end < |a|
    requires EndsReversed(a, r, start, end, s)
    requires next == Swap(r, s, start + end - s)
    ensures EndsReversed(a, next, start, end, s + 1)
  {
    var e := start + end - s;
    assert r[s] == a[s] && r[e] == a[e];
    forall i | 0 <= i < |a|
      ensures if start <= i < s + 1 || start + end - (s + 1) < i <= end
        then 0 <= start + end - i < |a| && next[i] == a[start + end - i]
        else next[i] == a[i]
    {
      if i != s && i != e {
        assert next[i] == r[i];
        if start <= i < s || start + end - s < i <= end {
          assert r[i] == a[start + end - i];
        } else {
          assert r[i] == a[i];
        }
      }
    }
  }

  /** Once the pointers meet, the whole range is reversed. */
  lemma {:induction false} RangeReversedWhenMet(a: seq<int>, r: seq<int>, start: int, end: int, s: int)
    requires start < end ==> 0 <= start && end < |a|
    requires start + end - s <= s
    requires start < end ==> start <= s <= start + end - s + 1
    requires start >= end ==> s == start
    requires EndsReversed(a, r, start, end, s)
    ensures forall i | 0 <= i < |a| && !(start <= i <= end) :: r[i] == a[i]
    ensures forall i | 0 <= i < |a| && start <= i <= end :: r[i] == a[start + end - i]
  {
    forall i | 0 <= i < |a| && start <= i <= end
      ensures r[i] == a[start + end - i]
    {
      if !(i < s || start + end - s < i) {
        assert i == start + end - i;
      }
      assert r[i] == a[start + end - i];
    }
  }

  /** Reference definition of a right rotation by `k`: the last `k` elements move to the front. */
  function RotateRight(s: seq<int>, k: nat): (r: seq<int>)
    requires k <= |s|
    ensures |r| == |s|
    ensures multiset(r) == multiset(s)
  {
    assert s == s[..|s| - k] + s[|s| - k..];
    s[|s| - k..] + s[..|s| - k]
  }

  /** Each element moves `k` places to the right, wrapping around past the end. */
  lemma {:induction false} RotateRightMoves(s: seq<int>, k: nat)
    requires k <= |s|
    ensures forall i | 0 <= i < |s| - k :: RotateRight(s, k)[i + k] == s[i]
    ensures forall i | |s| - k <= i < |s| :: RotateRight(s, k)[i + k - |s|] == s[i]
  {
  }

  /** The three reversals: whole array, first `k`, remainder. */
  method RotateByReversals(arr: seq<int>, k: nat) returns (r: seq<int>)
    requires |arr| >= 2 && k < |arr|
    ensures r == RotateRight(arr, k)
  {
    var n := |arr| - 1;
    var r1 := ReverseRange(arr, 0, n);
    var r2 := ReverseRange(r1, 0, k - 1);
    r := ReverseRange(r2, k, n);
    forall i | 0 <= i < |arr|
      ensures r[i] == RotateRight(arr, k)[i]
    {
      if i < k {
        assert r[i] == r2[i] == r1[k - 1 - i] == arr[n - k + 1 + i];
      } else {
        assert r[i] == r2[k + n - i] == r1[k + n - i] == arr[i - k];
      }
    }
  }

  /** Q5 `rotateArray` as written: `k` is reduced modulo `length - 1`. An array
      of length 0 or 1 comes back unchanged (for length 1, `k % 0` is NaN and
      no reversal runs). */
  method RotateArray(arr: seq<int>, k: nat) returns (r: seq<int>)
    ensures |arr| <= 1 ==> r == arr
    ensures |arr| >= 2 ==> r == RotateRight(arr, k % (|arr| - 1))
  {
    if |arr| <= 1 {
      return arr;
    }
    r := RotateByReversals(arr, k % (|arr| - 1));
  }

  /** The right rotation the exercise asks for, with `k` reduced modulo the length. */
  method RotateArrayFixed(arr: seq<int>, k: nat) returns (r: seq<int>)
    ensures |arr| == 0 ==> r == arr
    ensures |arr| > 0 ==> r == RotateRight(arr, k % |arr|)
  {
    if |arr| <= 1 {
      if |arr| == 1 {
        assert RotateRight(arr, k % 1) == arr;
      }
      return arr;
    }
    r := RotateByReversals(arr, k % |arr|);
  }

  /** `rotateArray([1, 2, 3, 4, 5], 4)` yields the array unchanged (4 % 4 == 0),
      where a right rotation by 4 gives [2, 3, 4, 5, 1]; k = 2 gives the documented [4, 5, 1, 2, 3]. */
  lemma {:induction false} RotateArrayModulusCounterexample()
    ensures 4 % (5 - 1) == 0 && 4 % 5 == 4
    ensures RotateRight([1, 2, 3, 4, 5], 0) == [1, 2, 3, 4, 5]
    ensures RotateRight([1, 2, 3, 4, 5], 4) == [2, 3, 4, 5, 1]
  {
    RotateNothing([1, 2, 3, 4, 5]);
    var s := [1, 2, 3, 4, 5];
    assert s[1..] == [2, 3, 4, 5] && s[..1] == [1];
  }

  /** Rotating by zero places changes nothing. */
  lemma {:induction false} RotateNothing(s: seq<int>)
    ensures RotateRight(s, 0) == s
  {
    assert s[|s|..] == [] && s[..|s|] == s;
  }

  /** `rotateArray([1, 2, 3, 4, 5], 2)`: 2 % 4 == 2 % 5, so the documented [4, 5, 1, 2, 3] appears. */
  lemma {:induction false} RotateArrayDocumentedExample()
    ensures 2 % (5 - 1) == 2 % 5 == 2
    ensures RotateRight([1, 2, 3, 4, 5], 2) == [4, 5, 1, 2, 3]
  {
    var s := [1, 2, 3, 4, 5];
    assert s[3..] == [4, 5] && s[..3] == [1, 2, 3];
  }

  // ---------------------------------------------------------------------------
  // Q6: twoSum
  // ---------------------------------------------------------------------------

  /** Q6 `twoSum`: the same scan as the object exercise; `undefined` when no pair exists. */
  method TwoSum(arr: seq<int>, target: int) returns (r: Option<(nat, nat)>)
    ensures r.Some? ==> ObjectsPractise.IsFirstPair(arr, target, r.value.0, r.value.1)
    ensures r.None? ==> ObjectsPractise.NoPair(arr, target)
  {
    var seen;
    r, seen := ObjectsPractise.TwoSumScan(arr, target);
  }

  // ---------------------------------------------------------------------------
  // Q7: moveZeros
  // ---------------------------------------------------------------------------

  predicate NonZero(x: int)
  {
    x != 0
  }

  function Zeros(n: nat): (r: seq<int>)
    ensures |r| == n && forall i | 0 <= i < n :: r[i] == 0
  {
    seq(n, i => 0)
  }

  /** Q7 `moveZeros`: compacts the non-zero elements to the front, then fills the rest with zeros. */
  method MoveZeros(arr: seq<int>) returns (r: seq<int>)
    ensures r == Filter(arr, NonZero) + Zeros(|arr| - |Filter(arr, NonZero)|)
  {
    r := arr;
    var idx := 0;
    for i := 0 to |arr|
      invariant idx <= i && |r| == |arr|
      invariant r[..idx] == Filter(arr[..i], NonZero)
      invariant r[i..] == arr[i..]
    {
      assert arr[..i + 1][..i] == arr[..i];
      assert r[i] == arr[i];
      if r[i] != 0 {
        r := r[idx := r[i]];
        idx := idx + 1;
      }
    }
    assert arr[..|arr|] == arr;
    ghost var f := r[..idx];
    while idx < |r|
      invariant |r| == |arr| && |f| <= idx <= |r|
      invariant r[..idx] == f + Zeros(idx - |f|)
    {
      r := r[idx := 0];
      idx := idx + 1;
    }
  }

  predicate IsZero(x: int)
  {
    x == 0
  }

  /** The elements that are not non-zero are exactly the zeros, one for each missing element. */
  lemma {:induction false} ZeroPart(arr: seq<int>)
    ensures |Filter(arr, NonZero)| + |Filter(arr, IsZero)| == |arr|
    ensures Filter(arr, IsZero) == Zeros(|Filter(arr, IsZero)|)
  {
    var f, z := Filter(arr, NonZero), Filter(arr, IsZero);
    PartitionMultiset(arr, NonZero, IsZero);
    assert |multiset(f)| + |multiset(z)| == |multiset(arr)|;
    FilterMembers(arr, IsZero);
    forall i | 0 <= i < |z|
      ensures z[i] == 0
    {
      assert z[i] in z;
    }
  }

  /** `moveZeros` keeps the length, the non-zero elements in order, and the number of zeros. */
  lemma {:induction false} MoveZerosKeepsCounts(arr: seq<int>)
    ensures var r := Filter(arr, NonZero) + Zeros(|arr| - |Filter(arr, NonZero)|);
      |r| == |arr| && multiset(r) == multiset(arr) && Filter(r, NonZero) == Filter(arr, NonZero)
  {
    var f, z := Filter(arr, NonZero), Filter(arr, IsZero);
    ZeroPart(arr);
    PartitionMultiset(arr, NonZero, IsZero);
    assert multiset(f + z) == multiset(arr);
    var zs := Zeros(|arr| - |f|);
    assert zs == z;
    FilterAppend(f, zs, NonZero);
    FilterIdempotent(arr, NonZero);
    FilterNone(zs, NonZero);
  }
}
