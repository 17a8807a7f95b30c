/**
 The hand-written polyfills of `map`, `filter` and `reduce` in JS/polyfill.js
 and polyfill.js. Both files share the same `myMap` and `myFilter`; they
 differ in `myReduce`, which tests the accumulator against `undefined` in
 JS/polyfill.js and for truthiness in polyfill.js. A callback receives
 `(value, index, array)` as in the scripts; `reduce`'s callback receives
 `(accumulator, value, index, array)` and may return `undefined` (`None`).
 The result is a new array, so the array the method is called on is never
 changed: it is an immutable `seq`.
 */
module Polyfills {
  import opened Common

  // ---------------------------------------------------------------------------
  // myMap
  // ---------------------------------------------------------------------------

  /** The first `n` iterations of `myMap`'s loop: `temp.push(cb(this[i], i, this))`. */
  function MapLoop<T, U>(arr: seq<T>, cb: (T, nat, seq<T>) -> U, n: nat): (temp: seq<U>)
    requires n <= |arr|
    ensures |temp| == n
    ensures forall i | 0 <= i < n :: temp[i] == cb(arr[i], i, arr)
  {
    if n == 0 then [] else MapLoop(arr, cb, n - 1) + [cb(arr[n - 1], n - 1, arr)]
  }

  /** `Array.prototype.myMap`: a new array of the same length holding `cb(this[i], i, this)` at `i`. */
  function MyMap<T, U>(arr: seq<T>, cb: (T, nat, seq<T>) -> U): (temp: seq<U>)
    ensures |temp| == |arr|
    ensures forall i | 0 <= i < |arr| :: temp[i] == cb(arr[i], i, arr)
  {
    MapLoop(arr, cb, |arr|)
  }

  /** Mapping composes: mapping twice is mapping once with the composed callback. */
  lemma {:induction false} MyMapCompose<T, U, V>(arr: seq<T>, f: (T, nat, seq<T>) -> U, g: (U, nat, seq<U>) -> V)
    ensures MyMap(MyMap(arr, f), g) == MyMap(arr, (x, i, a) => g(f(x, i, arr), i, MyMap(arr, f)))
  {
  }

  /** The scripts' example: `nums.myMap((num, i) => num * 2)` on `[1, 2, 3, 4, 5]`. */
  lemma {:induction false} MyMapExample()
    ensures MyMap([1, 2, 3, 4, 5], (num: int, i: nat, a: seq<int>) => num * 2) == [2, 4, 6, 8, 10]
  {
  }

  // ---------------------------------------------------------------------------
  // myFilter
  // ---------------------------------------------------------------------------

  /** The first `n` iterations of `myFilter`'s loop: push `this[i]` when `cb(this[i], i, this)` holds. */
  function FilterLoop<T>(arr: seq<T>, cb: (T, nat, seq<T>) -> bool, n: nat): (temp: seq<T>)
    requires n <= |arr|
    ensures |temp| <= n
  {
    if n == 0 then []
    else FilterLoop(arr, cb, n - 1) + (if cb(arr[n - 1], n - 1, arr) then [arr[n - 1]] else [])
  }

  /** `Array.prototype.myFilter`. */
  function MyFilter<T>(arr: seq<T>, cb: (T, nat, seq<T>) -> bool): (temp: seq<T>)
    ensures var idx := Kept(arr, cb, |arr|);
      |temp| == |idx| && forall j | 0 <= j < |idx| :: temp[j] == arr[idx[j]]
  {
    MyFilterKeepsAccepted(arr, cb, |arr|);
    FilterLoop(arr, cb, |arr|)
  }

  /** `myFilter` keeps exactly the accepted elements, in their original order. */
  lemma {:induction false} MyFilterKeepsAccepted<T>(arr: seq<T>, cb: (T, nat, seq<T>) -> bool, n: nat)
    requires n <= |arr|
    ensures var idx := Kept(arr, cb, n);
      |FilterLoop(arr, cb, n)| == |idx| &&
      forall j | 0 <= j < |idx| :: FilterLoop(arr, cb, n)[j] == arr[idx[j]]
    decreases n
  {
    if n > 0 {
      MyFilterKeepsAccepted(arr, cb, n - 1);
    }
  }

  /** With a callback that looks only at the value, `myFilter` is the built-in `filter`. */
  lemma {:induction false} MyFilterByValue<T>(arr: seq<T>, p: T -> bool, n: nat)
    requires n <= |arr|
    ensures FilterLoop(arr, (x, i, a) => p(x), n) == Filter(arr[..n], p)
    decreases n
  {
    if n > 0 {
      MyFilterByValue(arr, p, n - 1);
      assert arr[..n][..n - 1] == arr[..n - 1];
    }
  }

  /** The scripts' example: `nums.myFilter((num) => num > 3)` gives `[4, 5]`. */
  lemma {:induction false} MyFilterExample()
    ensures MyFilter([1, 2, 3, 4, 5], (num: int, i: nat, a: seq<int>) => num > 3) == [4, 5]
  {
  }

  // ---------------------------------------------------------------------------
  // myReduce, JS/polyfill.js: `accumulator !== undefined`
  // ---------------------------------------------------------------------------

  /** The accumulator after the first `n` iterations: call `cb` while the
      accumulator is defined, otherwise take the current element. */
  function ReduceLoop<T>(arr: seq<T>, cb: (T, T, nat, seq<T>) -> Option<T>, init: Option<T>, n: nat): Option<T>
    requires n <= |arr|
  {
    if n == 0 then init
    else
      var acc := ReduceLoop(arr, cb, init, n - 1);
      if acc.Some? then cb(acc.value, arr[n - 1], n - 1, arr) else Some(arr[n - 1])
  }

  /** `Array.prototype.myReduce(cb, initialValue)`; `None` for an omitted or `undefined` initial value. */
  function MyReduce<T>(arr: seq<T>, cb: (T, T, nat, seq<T>) -> Option<T>, init: Option<T>): (r: Option<T>)
    ensures |arr| == 0 ==> r == init
    ensures |arr| > 0 && ReduceLoop(arr, cb, init, |arr| - 1).None? ==> r == Some(arr[|arr| - 1])
  {
    ReduceLoop(arr, cb, init, |arr|)
  }

  /** Once the accumulator is undefined after `n` iterations, element `n`
      becomes the accumulator and the rest of the run is a fresh `myReduce`
      over the later elements seeded by it. */
  lemma {:induction false} ReduceRestartsAfterUndefined<T>(arr: seq<T>, cb: (T, T, nat, seq<T>) -> Option<T>, init: Option<T>, n: nat, m: nat)
    requires n < |arr| && ReduceLoop(arr, cb, init, n).None?
    requires n + 1 <= m <= |arr|
    ensures ReduceLoop(arr, cb, init, m) ==
      ReduceLoop(arr[n + 1..], (a: T, x: T, i: nat, s: seq<T>) => cb(a, x, i + n + 1, arr), Some(arr[n]), m - n - 1)
    decreases m
  {
    if m > n + 1 {
      ReduceRestartsAfterUndefined(arr, cb, init, n, m - 1);
      assert arr[n + 1..][m - n - 2] == arr[m - 1];
    }
  }

  /** `reduce` with a defined initial value and a callback that never returns
      `undefined` is the left fold. */
  lemma {:induction false} MyReduceIsFold<T>(arr: seq<T>, f: (T, T) -> T, init: T, n: nat)
    requires n <= |arr|
    ensures ReduceLoop(arr, (a, x, i, s) => Some(f(a, x)), Some(init), n) == Some(FoldLeft(f, init, arr[..n]))
    decreases n
  {
    if n > 0 {
      MyReduceIsFold(arr, f, init, n - 1);
      assert arr[..n][..n - 1] == arr[..n - 1];
    }
  }

  /** Without an initial value, the first element seeds the fold over the rest. */
  lemma {:induction false} MyReduceWithoutInit<T>(arr: seq<T>, f: (T, T) -> T)
    requires |arr| > 0
    ensures MyReduce(arr, (a, x, i, s) => Some(f(a, x)), None) == Some(FoldLeft(f, arr[0], arr[1..]))
  {
    SeededFold(arr, f, |arr|);
    assert arr[1..|arr|] == arr[1..];
  }

  lemma {:induction false} SeededFold<T>(arr: seq<T>, f: (T, T) -> T, m: nat)
    requires 1 <= m <= |arr|
    ensures ReduceLoop(arr, (a, x, i, s) => Some(f(a, x)), None, m) == Some(FoldLeft(f, arr[0], arr[1..m]))
    decreases m
  {
    if m > 1 {
      SeededFold(arr, f, m - 1);
      assert arr[1..m][..m - 2] == arr[1..m - 1];
    } else {
      assert arr[1..1] == [];
    }
  }

  function AddNumbers(acc: int, curr: int): int
  {
    acc + curr
  }

  /** JS/polyfill.js's example: summing `[1, 2, 3, 4, 5]` from 0 gives 15. */
  lemma {:induction false} MyReduceSumExample()
    ensures MyReduce([1, 2, 3, 4, 5], (a, x, i, s) => Some(AddNumbers(a, x)), Some(0)) == Some(15)
  {
    var nums := [1, 2, 3, 4, 5];
    MyReduceIsFold(nums, AddNumbers, 0, 5);
    assert nums[..5] == nums;
    assert nums[..4][..3][..2][..1] == [1];
  }

  // ---------------------------------------------------------------------------
  // myReduce, polyfill.js: `accumulator ? cb(...) : this[i]`
  // ---------------------------------------------------------------------------

  /** JavaScript truthiness of a number or `undefined` (NaN is not modelled). */
  predicate Truthy(v: Option<int>)
  {
    v.Some? && v.value != 0
  }

  /** The accumulator of polyfill.js's `myReduce` after `n` iterations: a falsy
      accumulator (0 included) is replaced by the current element. */
  function TruthyReduceLoop(arr: seq<int>, cb: (int, int, nat, seq<int>) -> Option<int>, init: Option<int>, n: nat): Option<int>
    requires n <= |arr|
  {
    if n == 0 then init
    else
      var acc := TruthyReduceLoop(arr, cb, init, n - 1);
      if Truthy(acc) then cb(acc.value, arr[n - 1], n - 1, arr) else Some(arr[n - 1])
  }

  /** polyfill.js's `myReduce` as written. */
  function MyReduceTruthy(arr: seq<int>, cb: (int, int, nat, seq<int>) -> Option<int>, init: Option<int>): (r: Option<int>)
    ensures |arr| == 0 ==> r == init
    ensures |arr| > 0 && !Truthy(TruthyReduceLoop(arr, cb, init, |arr| - 1)) ==> r == Some(arr[|arr| - 1])
  {
    TruthyReduceLoop(arr, cb, init, |arr|)
  }

  /** While the accumulator stays truthy the two polyfills agree step for step. */
  lemma {:induction false} TruthyAgreesWhileTruthy(arr: seq<int>, cb: (int, int, nat, seq<int>) -> Option<int>, init: Option<int>, n: nat)
    requires n <= |arr|
    requires Truthy(init) && forall m | 1 <= m < n :: Truthy(TruthyReduceLoop(arr, cb, init, m))
    ensures TruthyReduceLoop(arr, cb, init, n) == ReduceLoop(arr, cb, init, n)
    decreases n
  {
    if n > 0 {
      TruthyAgreesWhileTruthy(arr, cb, init, n - 1);
    }
  }

  function Multiply(acc: int, curr: int): int
  {
    acc * curr
  }

  /** A product that passes through 0 restarts: `[2, 0, 3]` from 1 gives 3 in
      polyfill.js, where the left fold (and JS/polyfill.js) gives 0. */
  lemma {:induction false} MyReduceTruthyCounterexample()
    ensures MyReduceTruthy([2, 0, 3], (a, x, i, s) => Some(Multiply(a, x)), Some(1)) == Some(3)
    ensures MyReduce([2, 0, 3], (a, x, i, s) => Some(Multiply(a, x)), Some(1)) == Some(0)
    ensures FoldLeft(Multiply, 1, [2, 0, 3]) == 0
  {
    var s := [2, 0, 3];
    assert s[..2] == [2, 0] && s[..2][..1] == [2] && s[..1] == [2];
  }

  /** A falsy initial value is dropped: summing from 0 starts at the first element instead. */
  lemma {:induction false} MyReduceTruthyZeroSeed(arr: seq<int>, cb: (int, int, nat, seq<int>) -> Option<int>)
    requires |arr| > 0
    ensures TruthyReduceLoop(arr, cb, Some(0), 1) == Some(arr[0])
    ensures TruthyReduceLoop(arr, cb, None, 1) == Some(arr[0])
  {
  }
}
