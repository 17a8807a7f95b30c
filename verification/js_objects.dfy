/**
 The order in which a plain JavaScript object enumerates its own string keys
 (`for…in`, `Object.keys`, `Object.values`): keys that are array indices
 (canonical decimal numbers below 2^32 - 1) come first in ascending numeric
 order, then every other key in the order it was first added. The exercises
 that return `Object.values(obj)` or iterate `for (key in obj)` depend on it.
 */
module JsObjects {
  import opened Common

  /** Keys of `s` never decrease along the sequence. */
  predicate SortedBy<T>(s: seq<T>, key: T -> int)
  {
    forall i, j | 0 <= i < j < |s| :: key(s[i]) <= key(s[j])
  }

  /** Inserts `x` before the first element whose key is not smaller. */
  function Insert<T(==)>(x: T, s: seq<T>, key: T -> int): (r: seq<T>)
    requires SortedBy(s, key)
    ensures SortedBy(r, key)
    ensures multiset(r) == multiset(s) + multiset{x}
    decreases |s|
  {
    if |s| == 0 then [x]
    else if key(x) <= key(s[0]) then [x] + s
    else
      var t := Insert(x, s[1..], key);
      assert forall j | 0 <= j < |t| :: key(s[0]) <= key(t[j]) by {
        forall j | 0 <= j < |t|
          ensures key(s[0]) <= key(t[j])
        {
          assert t[j] in multiset(t);
          if t[j] != x {
            assert t[j] in multiset(s[1..]);
            var k :| 0 <= k < |s[1..]| && s[1..][k] == t[j];
            assert s[k + 1] == t[j];
          }
        }
      }
      assert s == [s[0]] + s[1..];
      [s[0]] + t
  }

  /** A sort by an integer key (insertion sort); the result is a sorted permutation. */
  function SortBy<T(==)>(s: seq<T>, key: T -> int): (r: seq<T>)
    ensures SortedBy(r, key)
    ensures multiset(r) == multiset(s)
    decreases |s|
  {
    if |s| == 0 then []
    else
      assert s == [s[0]] + s[1..];
      Insert(s[0], SortBy(s[1..], key), key)
  }

  /** The smallest key of a sorted sequence is its first. */
  lemma {:induction false} SortedHeadIsLeast<T>(a: seq<T>, key: T -> int, x: T)
    requires SortedBy(a, key) && x in multiset(a)
    ensures |a| > 0 && key(a[0]) <= key(x)
  {
    var i :| 0 <= i < |a| && a[i] == x;
    if i > 0 {
      assert key(a[0]) <= key(a[i]);
    }
  }

  /** Under a one-to-one key, a multiset has exactly one sorted arrangement. */
  lemma {:induction false} SortedUnique<T>(a: seq<T>, b: seq<T>, key: T -> int)
    requires forall x, y :: key(x) == key(y) ==> x == y
    requires SortedBy(a, key) && SortedBy(b, key)
    requires multiset(a) == multiset(b)
    ensures a == b
    decreases |a|
  {
    assert |a| == |multiset(a)| == |multiset(b)| == |b|;
    if |a| > 0 {
      SortedHeadIsLeast(a, key, b[0]);
      SortedHeadIsLeast(b, key, a[0]);
      assert a[0] == b[0];
      SortedTail(a, key);
      SortedTail(b, key);
      assert multiset(a[1..]) == multiset(a) - multiset{a[0]} by {
        assert a == [a[0]] + a[1..];
      }
      assert multiset(b[1..]) == multiset(b) - multiset{b[0]} by {
        assert b == [b[0]] + b[1..];
      }
      SortedUnique(a[1..], b[1..], key);
      assert a == [a[0]] + a[1..];
      assert b == [b[0]] + b[1..];
    }
  }

  lemma {:induction false} SortedTail<T>(a: seq<T>, key: T -> int)
    requires SortedBy(a, key) && |a| > 0
    ensures SortedBy(a[1..], key)
  {
    forall i, j | 0 <= i < j < |a[1..]|
      ensures key(a[1..][i]) <= key(a[1..][j])
    {
      assert a[1..][i] == a[i + 1] && a[1..][j] == a[j + 1];
    }
  }

  // ---------------------------------------------------------------------------
  // Number-valued keys (`obj[num]`, read back with `Number(key)`)
  // ---------------------------------------------------------------------------

  /** An integer whose decimal form is an array index: 0 <= k < 2^32 - 1. */
  predicate IsIndexInt(k: int)
  {
    0 <= k < 0xFFFF_FFFF
  }

  predicate IsNotIndexInt(k: int)
  {
    !IsIndexInt(k)
  }

  function IntValue(k: int): int
  {
    k
  }

  /** Enumeration order of an object whose keys, in insertion order, are the numbers `keys`. */
  function IntKeyOrder(keys: seq<int>): (order: seq<int>)
    ensures multiset(order) == multiset(keys)
  {
    PartitionMultiset(keys, IsIndexInt, IsNotIndexInt);
    SortBy(Filter(keys, IsIndexInt), IntValue) + Filter(keys, IsNotIndexInt)
  }

  /** The sorted part of the enumeration holds only index keys. */
  lemma {:induction false} SortedIndexPart(keys: seq<int>)
    ensures forall i | 0 <= i < |SortBy(Filter(keys, IsIndexInt), IntValue)| ::
      IsIndexInt(SortBy(Filter(keys, IsIndexInt), IntValue)[i])
  {
    var a := SortBy(Filter(keys, IsIndexInt), IntValue);
    FilterMembers(keys, IsIndexInt);
    forall i | 0 <= i < |a|
      ensures IsIndexInt(a[i])
    {
      assert a[i] in multiset(Filter(keys, IsIndexInt));
    }
  }

  /** The enumeration keeps the index keys, ascending, and the other keys, in insertion order. */
  lemma {:induction false} IntKeyOrderParts(keys: seq<int>)
    ensures Filter(IntKeyOrder(keys), IsIndexInt) == SortBy(Filter(keys, IsIndexInt), IntValue)
    ensures Filter(IntKeyOrder(keys), IsNotIndexInt) == Filter(keys, IsNotIndexInt)
  {
    var a := SortBy(Filter(keys, IsIndexInt), IntValue);
    var b := Filter(keys, IsNotIndexInt);
    assert IntKeyOrder(keys) == a + b;
    SortedIndexPart(keys);
    FilterMembers(keys, IsNotIndexInt);
    forall i | 0 <= i < |b|
      ensures !IsIndexInt(b[i])
    {
      assert b[i] in b;
    }
    FilterAll(a, IsIndexInt);
    FilterNone(b, IsIndexInt);
    FilterAppend(a, b, IsIndexInt);
    FilterNone(a, IsNotIndexInt);
    FilterAll(b, IsNotIndexInt);
    FilterAppend(a, b, IsNotIndexInt);
  }

  /** Every index key comes before every other key, and the index keys ascend. */
  lemma {:induction false} IntKeyOrderIndexFirst(keys: seq<int>)
    ensures forall i, j | 0 <= i < j < |IntKeyOrder(keys)| && IsIndexInt(IntKeyOrder(keys)[j]) ::
      IsIndexInt(IntKeyOrder(keys)[i]) && IntKeyOrder(keys)[i] <= IntKeyOrder(keys)[j]
  {
    var a := SortBy(Filter(keys, IsIndexInt), IntValue);
    var b := Filter(keys, IsNotIndexInt);
    SortedIndexPart(keys);
    FilterMembers(keys, IsNotIndexInt);
    forall i | 0 <= i < |b|
      ensures !IsIndexInt(b[i])
    {
      assert b[i] in b;
    }
    IndexKeysFirst(a, b);
  }

  lemma {:induction false} IndexKeysFirst(a: seq<int>, b: seq<int>)
    requires SortedBy(a, IntValue)
    requires forall i | 0 <= i < |a| :: IsIndexInt(a[i])
    requires forall i | 0 <= i < |b| :: !IsIndexInt(b[i])
    ensures forall i, j | 0 <= i < j < |a + b| && IsIndexInt((a + b)[j]) ::
      IsIndexInt((a + b)[i]) && (a + b)[i] <= (a + b)[j]
  {
    forall i, j | 0 <= i < j < |a + b| && IsIndexInt((a + b)[j])
      ensures IsIndexInt((a + b)[i]) && (a + b)[i] <= (a + b)[j]
    {
      if j < |a| {
        assert IntValue(a[i]) <= IntValue(a[j]);
      }
    }
  }

  // ---------------------------------------------------------------------------
  // String keys
  // ---------------------------------------------------------------------------

  predicate AllDigits(s: string)
  {
    forall i | 0 <= i < |s| :: IsDigit(s[i])
  }

  /** The number a string of decimal digits denotes. */
  function DecimalValue(s: string): nat
    requires AllDigits(s)
    decreases |s|
  {
    if |s| == 0 then 0 else 10 * DecimalValue(s[..|s| - 1]) + (s[|s| - 1] as int - '0' as int)
  }

  /** A canonical decimal numeral (no leading zero) below 2^32 - 1. */
  predicate IsIndexKey(k: string)
  {
    && |k| > 0
    && AllDigits(k)
    && (k[0] != '0' || |k| == 1)
    && DecimalValue(k) < 0xFFFF_FFFF
  }

  predicate IsNotIndexKey(k: string)
  {
    !IsIndexKey(k)
  }

  function IndexValue(k: string): int
  {
    if IsIndexKey(k) then DecimalValue(k) else 0
  }

  /** Enumeration order of an object whose keys, in insertion order, are `keys`. */
  function StringKeyOrder(keys: seq<string>): (order: seq<string>)
    ensures multiset(order) == multiset(keys)
  {
    PartitionMultiset(keys, IsIndexKey, IsNotIndexKey);
    SortBy(Filter(keys, IsIndexKey), IndexValue) + Filter(keys, IsNotIndexKey)
  }

  /** Without array-index keys, an object enumerates its keys in insertion order, as a `Map` does. */
  lemma {:induction false} NoIndexKeysKeepInsertionOrder(keys: seq<string>)
    requires forall i | 0 <= i < |keys| :: !IsIndexKey(keys[i])
    ensures StringKeyOrder(keys) == keys
  {
    FilterNone(keys, IsIndexKey);
    FilterAll(keys, IsNotIndexKey);
  }
}
