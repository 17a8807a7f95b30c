/**
 Definitions shared by the exercise modules: an `Option` for JavaScript's
 `null`/`undefined` results, the small value model used where the scripts test
 `typeof`, occurrence counts, sums, reference definitions of reversal,
 filtering and de-duplication, the left fold that `Array.prototype.reduce`
 performs when given an initial value, and an insertion-ordered map standing
 for a JavaScript `Map` (or a plain object whose keys are not array indices).
 */
module Common {

  /** `None` stands for JavaScript's `undefined` or `null`, whichever the script returns. */
  datatype Option<T> = None | Some(value: T)

  /** The values the modelled scripts store in object properties, as far as
      `typeof` tells them apart. Numbers are modelled as unbounded integers. */
  datatype JsValue = JsNumber(n: int) | JsString(s: string) | JsOther

  // ---------------------------------------------------------------------------
  // Counting and summing
  // ---------------------------------------------------------------------------

  /** Number of occurrences of `x` in `s`. */
  function Count<T(==)>(s: seq<T>, x: T): nat
  {
    multiset(s)[x]
  }

  /** Sum of a sequence, accumulated from the left as the scripts' loops do. */
  function Sum(s: seq<int>): int
    decreases |s|
  {
    if |s| == 0 then 0 else Sum(s[..|s| - 1]) + s[|s| - 1]
  }

  lemma {:induction false} SumAppend(a: seq<int>, b: seq<int>)
    ensures Sum(a + b) == Sum(a) + Sum(b)
    decreases |b|
  {
    if |b| == 0 {
      assert a + b == a;
    } else {
      assert (a + b)[..|a + b| - 1] == a + b[..|b| - 1];
      SumAppend(a, b[..|b| - 1]);
    }
  }

  lemma {:induction false} SumCons(x: int, s: seq<int>)
    ensures Sum([x] + s) == x + Sum(s)
  {
    SumAppend([x], s);
    assert [x][..0] == [];
  }

  /** Summation does not depend on the order of the elements. */
  lemma {:induction false} SumPermutation(a: seq<int>, b: seq<int>)
    requires multiset(a) == multiset(b)
    ensures Sum(a) == Sum(b)
    decreases |a|
  {
    if |a| == 0 {
      assert |b| == |multiset(b)| == 0;
    } else {
      var n := |a|;
      var x := a[n - 1];
      assert x in b by {
        assert x in multiset(a);
      }
      var k :| 0 <= k < |b| && b[k] == x;
      var rest := b[..k] + b[k + 1..];
      RemoveMatching(a, b, k);
      SumPermutation(a[..n - 1], rest);
      SumRemove(b, k);
    }
  }

  /** Dropping the last element of `a` and an equal element of its permutation `b` leaves permutations. */
  lemma {:induction false} RemoveMatching<T>(a: seq<T>, b: seq<T>, k: nat)
    requires multiset(a) == multiset(b)
    requires |a| > 0 && k < |b| && b[k] == a[|a| - 1]
    ensures multiset(a[..|a| - 1]) == multiset(b[..k] + b[k + 1..])
  {
    var x := a[|a| - 1];
    assert a == a[..|a| - 1] + [x];
    assert multiset(a[..|a| - 1]) == multiset(a) - multiset{x};
    RemoveAtMultiset(b, k);
  }

  /** Taking out one element takes its value off the sum. */
  lemma {:induction false} SumRemove(s: seq<int>, k: nat)
    requires k < |s|
    ensures Sum(s) == Sum(s[..k] + s[k + 1..]) + s[k]
  {
    assert s == (s[..k] + [s[k]]) + s[k + 1..];
    SumAppend(s[..k] + [s[k]], s[k + 1..]);
    SumAppend(s[..k], [s[k]]);
    SumAppend(s[..k], s[k + 1..]);
    assert Sum([s[k]]) == s[k] by { assert [s[k]][..0] == []; }
  }

  /** Two sequences of the same length, the first nowhere having more copies of
      an element than the second, are permutations of each other. */
  lemma {:induction false} CountsBoundedSameLength<T>(a: seq<T>, b: seq<T>)
    requires |a| == |b|
    requires forall x :: Count(a, x) <= Count(b, x)
    ensures multiset(a) == multiset(b)
  {
    forall x
      ensures multiset(a)[x] <= multiset(b)[x]
    {
      assert Count(a, x) <= Count(b, x);
    }
    assert multiset(a) <= multiset(b);
    var d := multiset(b) - multiset(a);
    assert multiset(b) == multiset(a) + d;
    assert |d| == 0;
  }

  // ---------------------------------------------------------------------------
  // Reversal and swapping
  // ---------------------------------------------------------------------------

  /** Reference definition of reversal: position i holds the input's position |s|-1-i. */
  function Reverse<T>(s: seq<T>): seq<T>
  {
    seq(|s|, i requires 0 <= i < |s| => s[|s| - 1 - i])
  }

  /** The two-pointer `swap(arr, left, right)` helper, on the array's contents. */
  function Swap<T(==)>(s: seq<T>, i: nat, j: nat): (r: seq<T>)
    requires i < |s| && j < |s|
    ensures |r| == |s|
    ensures r[i] == s[j] && r[j] == s[i]
    ensures forall k | 0 <= k < |s| && k != i && k != j :: r[k] == s[k]
    ensures multiset(r) == multiset(s)
  {
    var something := s[i];
    var t := s[i := s[j]];
    assert multiset(t) == multiset(s) - multiset{s[i]} + multiset{s[j]};
    var r := t[j := something];
    assert multiset(r) == multiset(t) - multiset{t[j]} + multiset{something};
    r
  }

  // ---------------------------------------------------------------------------
  // Filtering, folding, de-duplication
  // ---------------------------------------------------------------------------

  /** The elements of `s` satisfying `p`, in their original order (built-in `filter`). */
  function Filter<T>(s: seq<T>, p: T -> bool): (r: seq<T>)
    ensures |r| <= |s|
    decreases |s|
  {
    if |s| == 0 then []
    else Filter(s[..|s| - 1], p) + (if p(s[|s| - 1]) then [s[|s| - 1]] else [])
  }

  /** Everything kept comes from `s` and satisfies `p`. */
  lemma {:induction false} FilterMembers<T>(s: seq<T>, p: T -> bool)
    ensures forall x | x in Filter(s, p) :: x in s && p(x)
    decreases |s|
  {
    if |s| > 0 {
      FilterMembers(s[..|s| - 1], p);
      forall x | x in Filter(s[..|s| - 1], p)
        ensures x in s
      {
        var i :| 0 <= i < |s| - 1 && s[..|s| - 1][i] == x;
        assert s[i] == x;
      }
    }
  }

  /** A callback of the `filter(cb(value, index, array))` shape that looks only at the value. */
  function ByValue<T>(p: T -> bool): (T, nat, seq<T>) -> bool
  {
    (x: T, i: nat, a: seq<T>) => p(x)
  }

  /** The indices below `n` whose element the callback accepts, in increasing order. */
  function Kept<T>(arr: seq<T>, cb: (T, nat, seq<T>) -> bool, n: nat): (idx: seq<nat>)
    requires n <= |arr|
    ensures forall j | 0 <= j < |idx| :: idx[j] < n && cb(arr[idx[j]], idx[j], arr)
    ensures forall j, k | 0 <= j < k < |idx| :: idx[j] < idx[k]
    ensures forall i | 0 <= i < n && cb(arr[i], i, arr) :: i in idx
  {
    if n == 0 then []
    else
      var p := Kept(arr, cb, n - 1);
      if cb(arr[n - 1], n - 1, arr) then p + [n - 1] else p
  }

  /** `Filter` reads `s` at exactly the indices whose element satisfies `p`, in increasing order. */
  lemma {:induction false} FilterSelects<T>(s: seq<T>, p: T -> bool)
    ensures var idx := Kept(s, ByValue(p), |s|);
      |Filter(s, p)| == |idx| && forall j | 0 <= j < |idx| :: Filter(s, p)[j] == s[idx[j]]
  {
    FilterSelectsPrefix(s, p, |s|);
    assert s[..|s|] == s;
  }

  lemma {:induction false} FilterSelectsPrefix<T>(s: seq<T>, p: T -> bool, n: nat)
    requires n <= |s|
    ensures var idx := Kept(s, ByValue(p), n);
      |Filter(s[..n], p)| == |idx| && forall j | 0 <= j < |idx| :: Filter(s[..n], p)[j] == s[idx[j]]
    decreases n
  {
    if n > 0 {
      FilterSelectsPrefix(s, p, n - 1);
      var idx := Kept(s, ByValue(p), n - 1);
      var f := Filter(s[..n - 1], p);
      assert Filter(s[..n], p) == f + (if p(s[n - 1]) then [s[n - 1]] else []) by {
        assert s[..n][..n - 1] == s[..n - 1];
      }
      assert ByValue(p)(s[n - 1], n - 1, s) == p(s[n - 1]);
      if p(s[n - 1]) {
        assert Kept(s, ByValue(p), n) == idx + [n - 1];
      } else {
        assert Kept(s, ByValue(p), n) == idx;
      }
    }
  }

  lemma {:induction false} FilterAppend<T>(a: seq<T>, b: seq<T>, p: T -> bool)
    ensures Filter(a + b, p) == Filter(a, p) + Filter(b, p)
    decreases |b|
  {
    if |b| == 0 {
      assert a + b == a;
    } else {
      assert (a + b)[..|a + b| - 1] == a + b[..|b| - 1];
      FilterAppend(a, b[..|b| - 1], p);
    }
  }

  /** Filtering keeps every element satisfying `p` with its full multiplicity and drops the others. */
  lemma {:induction false} FilterCount<T>(s: seq<T>, p: T -> bool, x: T)
    ensures Count(Filter(s, p), x) == if p(x) then Count(s, x) else 0
    decreases |s|
  {
    if |s| > 0 {
      FilterCount(s[..|s| - 1], p, x);
      assert s == s[..|s| - 1] + [s[|s| - 1]];
    }
  }

  /** The two halves of a partition by `p` hold the elements of `s` between them. */
  lemma {:induction false} PartitionMultiset<T>(s: seq<T>, p: T -> bool, q: T -> bool)
    requires forall x :: q(x) == !p(x)
    ensures multiset(Filter(s, p)) + multiset(Filter(s, q)) == multiset(s)
    decreases |s|
  {
    if |s| > 0 {
      var init := s[..|s| - 1];
      var last := s[|s| - 1];
      var fp, fq := Filter(init, p), Filter(init, q);
      PartitionMultiset(init, p, q);
      if p(last) {
        assert Filter(s, p) == fp + [last] && Filter(s, q) == fq;
        PartitionSnoc(fp, fq, s);
      } else {
        assert Filter(s, q) == fq + [last] && Filter(s, p) == fp;
        PartitionSnoc(fq, fp, s);
      }
    }
  }

  /** Appending the last element of `s` to one part of a partition of the rest partitions `s`. */
  lemma {:induction false} PartitionSnoc<T>(f: seq<T>, g: seq<T>, s: seq<T>)
    requires |s| > 0
    requires multiset(f) + multiset(g) == multiset(s[..|s| - 1])
    ensures multiset(f + [s[|s| - 1]]) + multiset(g) == multiset(s)
    ensures multiset(g) + multiset(f + [s[|s| - 1]]) == multiset(s)
  {
    assert s == s[..|s| - 1] + [s[|s| - 1]];
    assert multiset(f + [s[|s| - 1]]) == multiset(f) + multiset{s[|s| - 1]};
  }

  lemma {:induction false} FilterNone<T>(s: seq<T>, p: T -> bool)
    requires forall i | 0 <= i < |s| :: !p(s[i])
    ensures Filter(s, p) == []
    decreases |s|
  {
    if |s| > 0 {
      FilterNone(s[..|s| - 1], p);
    }
  }

  lemma {:induction false} FilterAll<T>(s: seq<T>, p: T -> bool)
    requires forall i | 0 <= i < |s| :: p(s[i])
    ensures Filter(s, p) == s
    decreases |s|
  {
    if |s| > 0 {
      FilterAll(s[..|s| - 1], p);
    }
  }

  /** Filtering twice by the same predicate keeps what the first pass kept. */
  lemma {:induction false} FilterIdempotent<T>(s: seq<T>, p: T -> bool)
    ensures Filter(Filter(s, p), p) == Filter(s, p)
  {
    var f := Filter(s, p);
    FilterMembers(s, p);
    forall i | 0 <= i < |f|
      ensures p(f[i])
    {
      assert f[i] in f;
    }
    FilterAll(f, p);
  }

  /** A relation holding between every earlier and later element survives filtering. */
  lemma {:induction false} FilterPairwise<T>(s: seq<T>, p: T -> bool, rel: (T, T) -> bool)
    requires forall i, j | 0 <= i < j < |s| :: rel(s[i], s[j])
    ensures forall i, j | 0 <= i < j < |Filter(s, p)| :: rel(Filter(s, p)[i], Filter(s, p)[j])
    decreases |s|
  {
    if |s| > 0 {
      var n := |s|;
      var q := s[..n - 1];
      FilterPairwise(q, p, rel);
      var f := Filter(q, p);
      var r := Filter(s, p);
      if p(s[n - 1]) {
        forall i, j | 0 <= i < j < |r|
          ensures rel(r[i], r[j])
        {
          if j == |f| {
            assert r[i] == f[i];
            FilterMembers(q, p);
            assert f[i] in q;
            var k :| 0 <= k < |q| && q[k] == f[i];
            assert s[k] == r[i];
          }
        }
      }
    }
  }

  /** Two filters can be applied in either order. */
  lemma {:induction false} FilterCommute<T>(s: seq<T>, p: T -> bool, q: T -> bool)
    ensures Filter(Filter(s, p), q) == Filter(Filter(s, q), p)
    decreases |s|
  {
    if |s| > 0 {
      var n := |s|;
      var x := s[n - 1];
      FilterCommute(s[..n - 1], p, q);
      var fp := Filter(s[..n - 1], p);
      var fq := Filter(s[..n - 1], q);
      if p(x) {
        assert Filter(s, p) == fp + [x];
        assert (fp + [x])[..|fp|] == fp;
      } else {
        assert Filter(s, p) == fp;
      }
      if q(x) {
        assert Filter(s, q) == fq + [x];
        assert (fq + [x])[..|fq|] == fq;
      } else {
        assert Filter(s, q) == fq;
      }
    }
  }

  /** Removing the element at `k` removes one copy of it from the multiset. */
  lemma {:induction false} RemoveAtMultiset<T>(s: seq<T>, k: nat)
    requires k < |s|
    ensures multiset(s[..k] + s[k + 1..]) == multiset(s) - multiset{s[k]}
  {
    assert s == s[..k] + [s[k]] + s[k + 1..];
    assert multiset(s) == multiset(s[..k]) + multiset{s[k]} + multiset(s[k + 1..]);
  }

  /** The groups of `gs` laid end to end. */
  function Concat<T>(gs: seq<seq<T>>): seq<T>
    decreases |gs|
  {
    if |gs| == 0 then [] else Concat(gs[..|gs| - 1]) + gs[|gs| - 1]
  }

  lemma {:induction false} ConcatAppend<T>(a: seq<seq<T>>, b: seq<seq<T>>)
    ensures Concat(a + b) == Concat(a) + Concat(b)
    decreases |b|
  {
    if |b| == 0 {
      assert a + b == a;
    } else {
      var p, x := b[..|b| - 1], b[|b| - 1];
      assert (a + b)[..|a + b| - 1] == a + p;
      assert (a + b)[|a + b| - 1] == x;
      ConcatAppend(a, p);
      assert Concat(a + b) == Concat(a + p) + x;
      assert Concat(b) == Concat(p) + x;
    }
  }

  /** A permutation of a duplicate-free sequence is duplicate-free. */
  lemma {:induction false} DistinctPermutation<T>(a: seq<T>, b: seq<T>)
    requires Distinct(a) && multiset(a) == multiset(b)
    ensures Distinct(b)
  {
    forall i, j | 0 <= i < j < |b|
      ensures b[i] != b[j]
    {
      if b[i] == b[j] {
        var x := b[i];
        assert b == b[..i] + [x] + b[i + 1..j] + [x] + b[j + 1..];
        assert multiset(b)[x] >= 2;
        assert x in multiset(a);
        DistinctCountOne(a, x);
      }
    }
  }

  /** `arr.reduce(f, init)`: a left fold over the elements. */
  function FoldLeft<A, B>(f: (A, B) -> A, init: A, s: seq<B>): A
    decreases |s|
  {
    if |s| == 0 then init else f(FoldLeft(f, init, s[..|s| - 1]), s[|s| - 1])
  }

  /** Every element occurs once. */
  predicate Distinct<T(==)>(s: seq<T>)
  {
    forall i, j | 0 <= i < j < |s| :: s[i] != s[j]
  }

  /** Sorted in non-decreasing order. */
  predicate Ascending(s: seq<int>)
  {
    forall i, j | 0 <= i < j < |s| :: s[i] <= s[j]
  }

  predicate StrictlyIncreasing(s: seq<int>)
  {
    forall i, j | 0 <= i < j < |s| :: s[i] < s[j]
  }

  /** Index of the first occurrence of `x` in `s`. */
  function FirstIndex<T(==)>(s: seq<T>, x: T): (i: nat)
    requires x in s
    ensures i < |s| && s[i] == x && x !in s[..i]
  {
    if s[0] == x then 0 else 1 + FirstIndex(s[1..], x)
  }

  /** The elements of `s` with repeats dropped, each kept at its first occurrence. */
  function Dedup<T(==)>(s: seq<T>): (r: seq<T>)
    ensures Distinct(r)
    ensures forall i | 0 <= i < |r| :: r[i] in s
    ensures forall i | 0 <= i < |s| :: s[i] in r
    decreases |s|
  {
    if |s| == 0 then []
    else
      var d := Dedup(s[..|s| - 1]);
      if s[|s| - 1] in d then d else d + [s[|s| - 1]]
  }

  lemma {:induction false} FirstIndexExtend<T>(s: seq<T>, y: T, x: T)
    requires x in s
    ensures FirstIndex(s + [y], x) == FirstIndex(s, x)
  {
    if s[0] != x {
      assert (s + [y])[1..] == s[1..] + [y];
      FirstIndexExtend(s[1..], y, x);
    }
  }

  /** `Dedup` lists the distinct elements in the order of their first occurrences. */
  lemma {:induction false} DedupFirstOccurrenceOrder<T>(s: seq<T>)
    ensures forall i, j | 0 <= i < j < |Dedup(s)| ::
      FirstIndex(s, Dedup(s)[i]) < FirstIndex(s, Dedup(s)[j])
    decreases |s|
  {
    if |s| > 0 {
      var p := s[..|s| - 1];
      var y := s[|s| - 1];
      assert s == p + [y];
      DedupFirstOccurrenceOrder(p);
      var d := Dedup(p);
      forall x | x in p
        ensures FirstIndex(s, x) == FirstIndex(p, x)
      {
        FirstIndexExtend(p, y, x);
      }
      if y !in d {
        assert y !in p;
        forall x | x in p
          ensures FirstIndex(s, x) < FirstIndex(s, y)
        {
          assert FirstIndex(s, y) == |p| by {
            assert s[|p|] == y && y !in s[..|p|];
          }
        }
      }
    }
  }

  /** Every element of `r` occurs in `s`, and `r` lists them in the order of their first occurrences in `s`. */
  predicate FirstOccurrenceOrdered<T(==)>(s: seq<T>, r: seq<T>)
  {
    && (forall i | 0 <= i < |r| :: r[i] in s)
    && forall i, j | 0 <= i < j < |r| :: r[i] in s && r[j] in s && FirstIndex(s, r[i]) < FirstIndex(s, r[j])
  }

  /** Appending to the source keeps the first occurrences of the listed elements where they were. */
  lemma {:induction false} FirstOccurrenceExtend<T>(p: seq<T>, y: T, d: seq<T>)
    requires FirstOccurrenceOrdered(p, d)
    ensures FirstOccurrenceOrdered(p + [y], d)
  {
    forall x | x in p
      ensures x in p + [y] && FirstIndex(p + [y], x) == FirstIndex(p, x)
    {
      FirstIndexExtend(p, y, x);
    }
  }

  /** An element that first occurs at the end of the source can be listed last. */
  lemma {:induction false} FirstOccurrenceSnoc<T>(p: seq<T>, y: T, d: seq<T>)
    requires y !in p && FirstOccurrenceOrdered(p, d)
    ensures FirstOccurrenceOrdered(p + [y], d + [y])
  {
    var s := p + [y];
    FirstOccurrenceExtend(p, y, d);
    assert FirstIndex(s, y) == |p| by {
      assert s[|p|] == y && s[..|p|] == p;
    }
    var r := d + [y];
    forall i, j | 0 <= i < j < |r|
      ensures r[i] in s && r[j] in s && FirstIndex(s, r[i]) < FirstIndex(s, r[j])
    {
      assert r[i] == d[i] && d[i] in p;
      if j < |d| {
        assert r[j] == d[j];
      }
    }
  }

  /** A duplicate-free listing in first-occurrence order is determined by its elements alone. */
  lemma {:induction false} FirstOccurrenceUnique<T>(s: seq<T>, a: seq<T>, b: seq<T>)
    requires Distinct(a) && Distinct(b)
    requires forall x :: x in a <==> x in b
    requires FirstOccurrenceOrdered(s, a) && FirstOccurrenceOrdered(s, b)
    ensures a == b
    decreases |a|
  {
    assert |b| > 0 ==> b[0] in a;
    if |a| > 0 {
      assert a[0] in b && b[0] in a;
      var k :| 0 <= k < |b| && b[k] == a[0];
      var m :| 0 <= m < |a| && a[m] == b[0];
      assert k == 0 || m == 0;
      var a', b' := a[1..], b[1..];
      forall x
        ensures x in a' <==> x in b'
      {
        DistinctTail(a, x);
        DistinctTail(b, x);
      }
      FirstOccurrenceUnique(s, a', b');
      HeadSplit(a);
      HeadSplit(b);
    }
  }

  /** Without its head, a duplicate-free sequence holds exactly its other elements. */
  lemma {:induction false} DistinctTail<T>(a: seq<T>, x: T)
    requires Distinct(a) && |a| > 0
    ensures x in a[1..] <==> x in a && x != a[0]
  {
    if x in a && x != a[0] {
      var i :| 0 <= i < |a| && a[i] == x;
      assert a[1..][i - 1] == x;
    }
    if x in a[1..] {
      var i :| 0 <= i < |a| - 1 && a[1..][i] == x;
      assert a[i + 1] == x;
    }
  }

  /** De-duplicating a duplicate-free sequence changes nothing. */
  lemma {:induction false} DedupOfDistinct<T>(s: seq<T>)
    requires Distinct(s)
    ensures Dedup(s) == s
    decreases |s|
  {
    if |s| > 0 {
      DedupOfDistinct(s[..|s| - 1]);
      assert s[|s| - 1] !in s[..|s| - 1];
      assert s == s[..|s| - 1] + [s[|s| - 1]];
    }
  }

  // ---------------------------------------------------------------------------
  // Frequency maps
  // ---------------------------------------------------------------------------

  /** Reference definition of a frequency table: each occurring element maps to its count. */
  function Frequency<T(==)>(s: seq<T>): map<T, nat>
  {
    map x | x in s :: Count(s, x)
  }

  /** One step of `freq[x] = (freq[x] || 0) + 1`; stored counts are never 0 here. */
  function Bump<T(==)>(m: map<T, nat>, x: T): map<T, nat>
  {
    m[x := (if x in m then m[x] else 0) + 1]
  }

  /** Counting one more element updates the frequency table by one `Bump`. */
  lemma {:induction false} FrequencySnoc<T>(s: seq<T>, x: T)
    ensures Frequency(s + [x]) == Bump(Frequency(s), x)
  {
    var l := Frequency(s + [x]);
    var r := Bump(Frequency(s), x);
    assert multiset(s + [x]) == multiset(s) + multiset{x};
    assert l.Keys == r.Keys;
  }
  /** The counting loop `freq[x] = (freq[x] || 0) + 1` over every element, in order,
      into an empty table: it builds the frequency table. */
  method CountEach<T(==)>(s: seq<T>) returns (freq: map<T, nat>)
    ensures freq == Frequency(s)
  {
    freq := map[];
    for i := 0 to |s|
      invariant freq == Frequency(s[..i])
    {
      FrequencySnoc(s[..i], s[i]);
      assert s[..i + 1] == s[..i] + [s[i]];
      freq := Bump(freq, s[i]);
    }
    assert s[..|s|] == s;
  }


  /** Folding `Bump` over a sequence from the empty table yields its frequency table. */
  lemma {:induction false} FoldBumpIsFrequency<T>(s: seq<T>)
    ensures FoldLeft(Bump, map[], s) == Frequency(s)
    decreases |s|
  {
    if |s| == 0 {
      assert Frequency(s) == map[];
    } else {
      FoldBumpIsFrequency(s[..|s| - 1]);
      assert s == s[..|s| - 1] + [s[|s| - 1]];
      FrequencySnoc(s[..|s| - 1], s[|s| - 1]);
    }
  }

  /** Sum of `counts[k]` over the keys listed in `keys`. */
  function SumOver<T(==)>(keys: seq<T>, counts: map<T, nat>): int
    requires forall k | k in keys :: k in counts
    decreases |keys|
  {
    if |keys| == 0 then 0 else SumOver(keys[..|keys| - 1], counts) + counts[keys[|keys| - 1]]
  }

  lemma {:induction false} SumOverSnocCounts<T>(keys: seq<T>, s: seq<T>, x: T)
    requires forall k | k in keys :: k in s
    ensures forall k | k in keys :: k in s + [x]
    ensures SumOver(keys, Frequency(s + [x])) ==
            SumOver(keys, Frequency(s)) + Count(keys, x)
    decreases |keys|
  {
    if |keys| > 0 {
      var ks := keys[..|keys| - 1];
      SumOverSnocCounts(ks, s, x);
      assert keys == ks + [keys[|keys| - 1]];
      assert multiset(s + [x]) == multiset(s) + multiset{x};
    }
  }

  /** The counts of a frequency table add up to the length of the input:
      summed over the distinct elements, every position is counted once. */
  lemma {:induction false} FrequencyTotal<T>(s: seq<T>)
    ensures forall k | k in Dedup(s) :: k in Frequency(s)
    ensures SumOver(Dedup(s), Frequency(s)) == |s|
    decreases |s|
  {
    if |s| > 0 {
      var p := s[..|s| - 1];
      FrequencyTotal(p);
      if s[|s| - 1] in Dedup(p) {
        FrequencyTotalSeen(s);
      } else {
        FrequencyTotalFresh(s);
      }
    }
  }

  /** A last element seen before adds one to a count the table already has. */
  lemma {:induction false} FrequencyTotalSeen<T>(s: seq<T>)
    requires |s| > 0
    requires var p := s[..|s| - 1]; s[|s| - 1] in Dedup(p) && SumOver(Dedup(p), Frequency(p)) == |p|
    ensures forall k | k in Dedup(s) :: k in Frequency(s)
    ensures SumOver(Dedup(s), Frequency(s)) == |s|
  {
    var p := s[..|s| - 1];
    var x := s[|s| - 1];
    LastSplit(s);
    var d := Dedup(p);
    assert Dedup(s) == d;
    SumOverSnocCounts(d, p, x);
    DistinctCountOne(d, x);
  }

  /** A new last element opens a count of one at the end of the table. */
  lemma {:induction false} FrequencyTotalFresh<T>(s: seq<T>)
    requires |s| > 0
    requires var p := s[..|s| - 1]; s[|s| - 1] !in Dedup(p) && SumOver(Dedup(p), Frequency(p)) == |p|
    ensures forall k | k in Dedup(s) :: k in Frequency(s)
    ensures SumOver(Dedup(s), Frequency(s)) == |s|
  {
    var p := s[..|s| - 1];
    var x := s[|s| - 1];
    LastSplit(s);
    var d := Dedup(p);
    var f := Frequency(s);
    assert Dedup(s) == d + [x];
    assert SumOver(d, f) == |p| by {
      SumOverSnocCounts(d, p, x);
      assert Count(d, x) == 0;
    }
    assert x in f && f[x] == 1 by {
      assert multiset(s) == multiset(p) + multiset{x};
    }
    assert SumOver(d + [x], f) == SumOver(d, f) + f[x] by {
      assert (d + [x])[..|d + [x]| - 1] == d;
    }
  }

  /** A non-empty sequence is its prefix followed by its last element. */
  lemma {:induction false} LastSplit<T>(s: seq<T>)
    requires |s| > 0
    ensures s == s[..|s| - 1] + [s[|s| - 1]]
  {
    assert forall i | 0 <= i < |s| :: s[i] == (s[..|s| - 1] + [s[|s| - 1]])[i];
  }

  /** A non-empty sequence is its first element followed by the rest. */
  lemma {:induction false} HeadSplit<T>(s: seq<T>)
    requires |s| > 0
    ensures s == [s[0]] + s[1..]
  {
    assert forall i | 0 <= i < |s| :: s[i] == ([s[0]] + s[1..])[i];
  }

  /** Without its last element a distinct sequence stays distinct and no longer holds that element. */
  lemma {:induction false} DistinctSnoc<T>(s: seq<T>)
    requires Distinct(s) && |s| > 0
    ensures Distinct(s[..|s| - 1]) && s[|s| - 1] !in s[..|s| - 1]
  {
    var p := s[..|s| - 1];
    forall i, j | 0 <= i < j < |p|
      ensures p[i] != p[j]
    {
      assert p[i] == s[i] && p[j] == s[j];
    }
    forall i | 0 <= i < |p|
      ensures p[i] != s[|s| - 1]
    {
      assert p[i] == s[i];
    }
  }

  lemma {:induction false} DistinctCountOne<T>(s: seq<T>, x: T)
    requires Distinct(s) && x in s
    ensures Count(s, x) == 1
    decreases |s|
  {
    var p := s[..|s| - 1];
    assert s == p + [s[|s| - 1]];
    if s[|s| - 1] == x {
      assert x !in p;
    } else {
      DistinctCountOne(p, x);
    }
  }

  // ---------------------------------------------------------------------------
  // JavaScript `Map`
  // ---------------------------------------------------------------------------

  /** A JavaScript `Map` (or an object whose keys are not array indices):
      a key-value table that remembers the order in which keys were first set. */
  datatype InsertionMap<K(==), V> = InsertionMap(keys: seq<K>, vals: map<K, V>)
  {
    ghost predicate Valid()
    {
      && Distinct(keys)
      && (forall i | 0 <= i < |keys| :: keys[i] in vals)
      && (forall k | k in vals :: k in keys)
    }

    /** `m.set(k, v)` / `obj[k] = v`: a new key goes to the end, an existing key keeps its place. */
    function Set(k: K, v: V): (m: InsertionMap<K, V>)
      requires Valid()
      ensures m.Valid()
      ensures m.vals == vals[k := v]
      ensures k in vals ==> m.keys == keys
      ensures k !in vals ==> m.keys == keys + [k]
    {
      if k in vals then InsertionMap(keys, vals[k := v]) else InsertionMap(keys + [k], vals[k := v])
    }

    /** `Array.from(m.values())`: the values in key-insertion order. */
    function Values(): (vs: seq<V>)
      requires Valid()
      ensures |vs| == |keys|
      ensures forall i | 0 <= i < |keys| :: vs[i] == vals[keys[i]]
    {
      seq(|keys|, i requires 0 <= i < |keys| && Valid() => vals[keys[i]])
    }
  }

  function EmptyMap<K(==), V>(): (m: InsertionMap<K, V>)
    ensures m.Valid() && m.keys == [] && m.vals == map[]
  {
    InsertionMap([], map[])
  }

  /** The loop `for (let x of arr) freq[x] = (freq[x] || 0) + 1`, on an
      object or a `Map`: the keys are the distinct values in order of first
      occurrence, each mapped to its number of occurrences. */
  method CountTable<T(==)>(arr: seq<T>) returns (t: InsertionMap<T, nat>)
    ensures t.Valid()
    ensures t.keys == Dedup(arr)
    ensures t.vals == Frequency(arr)
  {
    t := EmptyMap();
    assert Frequency(arr[..0]) == map[];
    for i := 0 to |arr|
      invariant t.Valid()
      invariant t.keys == Dedup(arr[..i])
      invariant t.vals == Frequency(arr[..i])
    {
      var x := arr[i];
      CountStep(arr, i, t);
      t := t.Set(x, (if x in t.vals then t.vals[x] else 0) + 1);
    }
    assert arr[..|arr|] == arr;
  }

  /** One pass of the counting loop keeps the table equal to the counts of the prefix read so far. */
  lemma {:induction false} CountStep<T>(arr: seq<T>, i: nat, t: InsertionMap<T, nat>)
    requires i < |arr|
    requires t.Valid() && t.keys == Dedup(arr[..i]) && t.vals == Frequency(arr[..i])
    ensures var t' := t.Set(arr[i], (if arr[i] in t.vals then t.vals[arr[i]] else 0) + 1);
      t'.keys == Dedup(arr[..i + 1]) && t'.vals == Frequency(arr[..i + 1])
  {
    var x := arr[i];
    assert arr[..i + 1] == arr[..i] + [x];
    assert arr[..i + 1][..i] == arr[..i];
    FrequencySnoc(arr[..i], x);
    assert x in t.vals <==> x in Dedup(arr[..i]);
  }

  // ---------------------------------------------------------------------------
  // Characters (ASCII only)
  // ---------------------------------------------------------------------------

  predicate IsLetter(c: char)
  {
    ('a' <= c <= 'z') || ('A' <= c <= 'Z')
  }

  predicate IsDigit(c: char)
  {
    '0' <= c <= '9'
  }

  predicate IsAlnum(c: char)
  {
    IsLetter(c) || IsDigit(c)
  }

  function ToLower(c: char): char
  {
    if 'A' <= c <= 'Z' then (c as int + 32) as char else c
  }

  function ToUpper(c: char): char
  {
    if 'a' <= c <= 'z' then (c as int - 32) as char else c
  }
}
