/**
 The anagram grouping shared by practise_problems/objects.practise.js
 (`groupAnagrams`, `groupAnagrams1`) and advanced_coding_patterns.js
 (`groupAnagrams`): each word is filed under the key made of its sorted
 characters, a new key opening a new group, and the groups are returned in the
 container's enumeration order. The variants differ only in how the key is
 joined into a string and in whether the container is a `Map` (insertion
 order) or a plain object (array-index keys first).
 */
module Anagrams {
  import opened Common
  import opened JsObjects

  /** The default `sort()` compares one-character strings by UTF-16 code unit. A `char`
      here is a Unicode scalar value, so this is that code unit only for characters of
      the Basic Multilingual Plane. */
  function CharCode(c: char): int
  {
    c as int
  }

  /** `w.split("").sort()`: the characters of `w` in ascending order. */
  function SortChars(w: string): (r: string)
    ensures SortedBy(r, CharCode)
    ensures multiset(r) == multiset(w)
  {
    SortBy(w, CharCode)
  }

  /** Two words sort to the same characters exactly when they are anagrams. */
  lemma {:induction false} SortCharsIffAnagram(a: string, b: string)
    ensures SortChars(a) == SortChars(b) <==> multiset(a) == multiset(b)
  {
    if multiset(a) == multiset(b) {
      SortedUnique(SortChars(a), SortChars(b), CharCode);
    }
  }

  /** `.join()` with its default separator: the characters separated by commas. */
  function JoinComma(cs: string): (r: string)
    ensures |cs| > 0 ==> |r| == 2 * |cs| - 1 && r[0] == cs[0]
    ensures |cs| == 0 ==> r == ""
    decreases |cs|
  {
    if |cs| <= 1 then cs else [cs[0], ','] + JoinComma(cs[1..])
  }

  /** Comma-joining single characters loses nothing: the separators sit at odd positions. */
  lemma {:induction false} JoinCommaInjective(a: string, b: string)
    requires JoinComma(a) == JoinComma(b)
    ensures a == b
    decreases |a|
  {
    if |a| > 1 {
      assert |b| > 1;
      assert JoinComma(a)[2..] == JoinComma(a[1..]);
      assert JoinComma(b)[2..] == JoinComma(b[1..]);
      JoinCommaInjective(a[1..], b[1..]);
      assert a == [a[0]] + a[1..];
      assert b == [b[0]] + b[1..];
    }
  }

  /** The key of practise_problems/objects.practise.js: `word.split("").sort().join()`. */
  function CommaKey(w: string): string
  {
    JoinComma(SortChars(w))
  }

  /** The key of advanced_coding_patterns.js: `str.split('').sort().join('')`. */
  function PlainKey(w: string): string
  {
    SortChars(w)
  }

  lemma {:induction false} CommaKeyIffAnagram(a: string, b: string)
    ensures CommaKey(a) == CommaKey(b) <==> multiset(a) == multiset(b)
  {
    SortCharsIffAnagram(a, b);
    if CommaKey(a) == CommaKey(b) {
      JoinCommaInjective(SortChars(a), SortChars(b));
    }
  }

  lemma {:induction false} PlainKeyIffAnagram(a: string, b: string)
    ensures PlainKey(a) == PlainKey(b) <==> multiset(a) == multiset(b)
  {
    SortCharsIffAnagram(a, b);
  }

  /** The key of a word made only of ASCII letters is never an array index. */
  lemma {:induction false} LetterWordKeysAreNotIndices(w: string)
    requires forall i | 0 <= i < |w| :: IsLetter(w[i])
    ensures !IsIndexKey(CommaKey(w)) && !IsIndexKey(PlainKey(w))
  {
    var s := SortChars(w);
    if |s| > 0 {
      assert s[0] in multiset(w);
      assert !IsDigit(s[0]);
      assert CommaKey(w)[0] == s[0];
    }
  }

  // ---------------------------------------------------------------------------
  // Grouping
  // ---------------------------------------------------------------------------

  /** The key of every word, in input order. */
  function KeysOf<W, K(==)>(words: seq<W>, key: W -> K): (ks: seq<K>)
    ensures |ks| == |words|
  {
    seq(|words|, i requires 0 <= i < |words| => key(words[i]))
  }

  /** The words filed under `k`, in input order. */
  function Members<W, K(==)>(words: seq<W>, key: W -> K, k: K): (g: seq<W>)
    ensures forall i | 0 <= i < |g| :: g[i] in words && key(g[i]) == k
    ensures g == [] || k in KeysOf(words, key)
    decreases |words|
  {
    if |words| == 0 then []
    else
      var p := words[..|words| - 1];
      var w := words[|words| - 1];
      assert KeysOf(words, key) == KeysOf(p, key) + [key(w)];
      Members(p, key, k) + (if key(w) == k then [w] else [])
  }

  /** A word occurs in its own key's group as often as in the input, and in no other group. */
  lemma {:induction false} MembersCount<W, K>(words: seq<W>, key: W -> K, k: K, w: W)
    ensures Count(Members(words, key, k), w) == if key(w) == k then Count(words, w) else 0
    decreases |words|
  {
    if |words| > 0 {
      var p := words[..|words| - 1];
      var last := words[|words| - 1];
      LastSplit(words);
      MembersCount(p, key, k, w);
      var tail := if key(last) == k then [last] else [];
      assert Members(words, key, k) == Members(p, key, k) + tail;
      assert multiset(Members(words, key, k)) == multiset(Members(p, key, k)) + multiset(tail);
      assert multiset(words) == multiset(p) + multiset{last};
    }
  }

  /** The loop `for (word of words) { if (!map[key]) map[key] = []; map[key].push(word); }`. */
  function GroupBy<W, K(==)>(words: seq<W>, key: W -> K): (m: InsertionMap<K, seq<W>>)
    ensures m.Valid()
    decreases |words|
  {
    if |words| == 0 then EmptyMap()
    else
      var m := GroupBy(words[..|words| - 1], key);
      var k := key(words[|words| - 1]);
      var group := if k in m.vals then m.vals[k] else [];
      m.Set(k, group + [words[|words| - 1]])
  }

  /** One more word either extends the group of a known key or opens a group at the end. */
  lemma {:induction false} GroupByStep<W, K>(p: seq<W>, w: W, key: W -> K)
    ensures var m := GroupBy(p, key); var m' := GroupBy(p + [w], key);
      && (key(w) in m.vals ==> m'.keys == m.keys && m'.vals == m.vals[key(w) := m.vals[key(w)] + [w]])
      && (key(w) !in m.vals ==> m'.keys == m.keys + [key(w)] && m'.vals == m.vals[key(w) := [w]])
  {
    var words := p + [w];
    assert words[..|words| - 1] == p;
    assert words[|words| - 1] == w;
    var m := GroupBy(p, key);
    var k := key(w);
    var group := if k in m.vals then m.vals[k] else [];
    var m' := m.Set(k, group + [w]);
    assert GroupBy(words, key) == m';
    assert k !in m.vals ==> group + [w] == [w];
    assert k in m.vals ==> m'.keys == m.keys;
    assert k in m.vals ==> m'.vals == m.vals[k := m.vals[k] + [w]];
    assert k !in m.vals ==> m'.keys == m.keys + [k];
    assert k !in m.vals ==> m'.vals == m.vals[k := [w]];
  }

  /** The table has one group per distinct key, opened at the key's first appearance. */
  lemma {:induction false} GroupByKeys<W, K>(words: seq<W>, key: W -> K)
    ensures GroupBy(words, key).keys == Dedup(KeysOf(words, key))
    decreases |words|
  {
    if |words| > 0 {
      var n := |words|;
      var p := words[..n - 1];
      var w := words[n - 1];
      LastSplit(words);
      GroupByKeys(p, key);
      GroupByStep(p, w, key);
      var ks := KeysOf(words, key);
      assert ks[..n - 1] == KeysOf(p, key);
      assert ks[n - 1] == key(w);
    }
  }

  /** The group of a key holds exactly the words with that key, in input order. */
  lemma {:induction false} GroupByMembers<W, K>(words: seq<W>, key: W -> K, k: K)
    requires k in GroupBy(words, key).vals
    ensures GroupBy(words, key).vals[k] == Members(words, key, k)
    decreases |words|
  {
    var n := |words|;
    var p := words[..n - 1];
    var w := words[n - 1];
    LastSplit(words);
    GroupByStep(p, w, key);
    var m := GroupBy(p, key);
    if k in m.vals {
      GroupByMembers(p, key, k);
    } else {
      assert k == key(w);
      MembersOfNewKey(p, key, k);
    }
  }

  /** A key no word has so far has no members so far. */
  lemma {:induction false} MembersOfNewKey<W, K>(p: seq<W>, key: W -> K, k: K)
    requires k !in GroupBy(p, key).vals
    ensures Members(p, key, k) == []
  {
    var m := GroupBy(p, key);
    GroupByKeys(p, key);
    assert k !in m.keys;
  }

  /** Every key of `order` has a group in `vals`. */
  predicate Listed<K(==), W>(vals: map<K, seq<W>>, order: seq<K>)
  {
    forall x | x in order :: x in vals
  }

  /** The groups listed in the order `order` enumerates their keys. */
  function GroupsOf<K(==), W>(vals: map<K, seq<W>>, order: seq<K>): (gs: seq<seq<W>>)
    requires Listed(vals, order)
    ensures |gs| == |order|
    ensures forall i | 0 <= i < |order| :: gs[i] == vals[order[i]]
  {
    seq(|order|, i requires 0 <= i < |order| && order[i] in vals => vals[order[i]])
  }

  /** The words of all groups listed by `order`, as a multiset. */
  function Bag<K(==), W(==)>(vals: map<K, seq<W>>, order: seq<K>): multiset<W>
    requires Listed(vals, order)
    decreases |order|
  {
    if |order| == 0 then multiset{}
    else Bag(vals, order[..|order| - 1]) + multiset(vals[order[|order| - 1]])
  }

  lemma {:induction false} BagIsConcat<K, W>(vals: map<K, seq<W>>, order: seq<K>)
    requires Listed(vals, order)
    ensures multiset(Concat(GroupsOf(vals, order))) == Bag(vals, order)
    decreases |order|
  {
    var n := |order|;
    if n > 0 {
      var gs := GroupsOf(vals, order);
      assert gs[..n - 1] == GroupsOf(vals, order[..n - 1]);
      BagIsConcat(vals, order[..n - 1]);
    }
  }

  /** A prefix of a listing is a listing. */
  lemma {:induction false} ListedPrefix<K, W>(vals: map<K, seq<W>>, b: seq<K>, m: nat)
    requires Listed(vals, b) && m <= |b|
    ensures Listed(vals, b[..m])
  {
    forall x | x in b[..m]
      ensures x in vals
    {
      var i :| 0 <= i < m && b[..m][i] == x;
      assert b[i] == x;
    }
  }

  /** Dropping one key of a listing leaves a listing. */
  lemma {:induction false} ListedRemove<K, W>(vals: map<K, seq<W>>, b: seq<K>, k: nat)
    requires Listed(vals, b) && k < |b|
    ensures Listed(vals, b[..k] + b[k + 1..])
  {
    var r := b[..k] + b[k + 1..];
    forall x | x in r
      ensures x in vals
    {
      var i :| 0 <= i < |r| && r[i] == x;
      if i < k { assert b[i] == x; } else { assert b[i + 1] == x; }
    }
  }

  /** Taking one key out of the listing takes out exactly its group. */
  lemma {:induction false} BagRemove<K, W>(vals: map<K, seq<W>>, b: seq<K>, k: nat)
    requires Listed(vals, b)
    requires k < |b|
    ensures Listed(vals, b[..k] + b[k + 1..])
    ensures Bag(vals, b) == Bag(vals, b[..k] + b[k + 1..]) + multiset(vals[b[k]])
    decreases |b|, 1
  {
    ListedRemove(vals, b, k);
    if k < |b| - 1 {
      BagRemoveInner(vals, b, k);
    } else {
      assert b[..k] + b[k + 1..] == b[..|b| - 1];
    }
  }

  /** Removing a key before the last: the last group stays last. */
  lemma {:induction false} BagRemoveInner<K, W>(vals: map<K, seq<W>>, b: seq<K>, k: nat)
    requires Listed(vals, b)
    requires k < |b| - 1
    requires Listed(vals, b[..k] + b[k + 1..])
    ensures Bag(vals, b) == Bag(vals, b[..k] + b[k + 1..]) + multiset(vals[b[k]])
    decreases |b|, 0
  {
    var n := |b|;
    var r := b[..k] + b[k + 1..];
    var p := b[..n - 1];
    var last := b[n - 1];
    ListedPrefix(vals, b, n - 1);
    BagRemove(vals, p, k);
    var rp := p[..k] + p[k + 1..];
    assert r[..|r| - 1] == rp && r[|r| - 1] == last by {
      assert p[..k] == b[..k];
      assert p[k + 1..] + [last] == b[k + 1..];
      assert r == rp + [last];
    }
    assert Bag(vals, r) == Bag(vals, rp) + multiset(vals[last]);
    assert Bag(vals, b) == Bag(vals, p) + multiset(vals[last]);
  }

  /** Listing the same keys in another order gathers the same words. */
  lemma {:induction false} BagReorder<K, W>(vals: map<K, seq<W>>, a: seq<K>, b: seq<K>)
    requires Listed(vals, a)
    requires multiset(a) == multiset(b)
    ensures Listed(vals, b)
    ensures Bag(vals, a) == Bag(vals, b)
    decreases |a|
  {
    forall x | x in b
      ensures x in vals
    {
      assert x in multiset(b);
      assert x in a;
    }
    if |a| == 0 {
      assert |b| == |multiset(b)| == 0;
    } else {
      var n := |a|;
      var x := a[n - 1];
      assert x in multiset(b);
      var k :| 0 <= k < |b| && b[k] == x;
      var rest := b[..k] + b[k + 1..];
      RemoveAtMultiset(b, k);
      RemoveAtMultiset(a, n - 1);
      assert a[..n - 1] + a[n..] == a[..n - 1];
      BagRemove(vals, b, k);
      BagReorder(vals, a[..n - 1], rest);
    }
  }

  /** Appending one word to the group of a listed key adds exactly that word. */
  lemma {:induction false} BagGrow<K, W>(vals: map<K, seq<W>>, order: seq<K>, k: K, w: W)
    requires Listed(vals, order)
    requires Distinct(order) && k in vals
    ensures k in order ==> Bag(vals[k := vals[k] + [w]], order) == Bag(vals, order) + multiset{w}
    ensures k !in order ==> Bag(vals[k := vals[k] + [w]], order) == Bag(vals, order)
    decreases |order|
  {
    var n := |order|;
    if n > 0 {
      var grown := vals[k := vals[k] + [w]];
      var p := order[..n - 1];
      var last := order[n - 1];
      LastSplit(order);
      ListedPrefix(vals, order, n - 1);
      DistinctSnoc(order);
      assert Bag(grown, order) == Bag(grown, p) + multiset(grown[last]);
      assert Bag(vals, order) == Bag(vals, p) + multiset(vals[last]);
      if last == k {
        BagFresh(vals, p, k, vals[k] + [w]);
        assert multiset(grown[last]) == multiset(vals[k]) + multiset{w};
      } else {
        BagGrow(vals, p, k, w);
        assert grown[last] == vals[last];
        assert k in order <==> k in p;
      }
    }
  }

  /** A key missing from the listing does not change what the listing gathers. */
  lemma {:induction false} BagFresh<K, W>(vals: map<K, seq<W>>, order: seq<K>, k: K, g: seq<W>)
    requires Listed(vals, order)
    requires k !in order
    ensures Bag(vals[k := g], order) == Bag(vals, order)
    decreases |order|
  {
    if |order| > 0 {
      BagFresh(vals, order[..|order| - 1], k, g);
    }
  }

  /** The groups of `GroupBy`, in insertion order, hold the input words between them. */
  lemma {:induction false} GroupByPermutation<W, K>(words: seq<W>, key: W -> K)
    ensures Bag(GroupBy(words, key).vals, GroupBy(words, key).keys) == multiset(words)
    decreases |words|
  {
    if |words| > 0 {
      var n := |words|;
      var p := words[..n - 1];
      var w := words[n - 1];
      LastSplit(words);
      GroupByPermutation(p, key);
      GroupByStep(p, w, key);
      BagSnoc(GroupBy(p, key), key(w), w);
    }
  }

  /** `Bag` tracks one step of the grouping loop. */
  lemma {:induction false} BagSnoc<W, K>(m: InsertionMap<K, seq<W>>, k: K, w: W)
    requires m.Valid()
    ensures var m' := if k in m.vals then InsertionMap(m.keys, m.vals[k := m.vals[k] + [w]])
                      else InsertionMap(m.keys + [k], m.vals[k := [w]]);
      Bag(m'.vals, m'.keys) == Bag(m.vals, m.keys) + multiset{w}
  {
    if k in m.vals {
      BagGrow(m.vals, m.keys, k, w);
    } else {
      var keys' := m.keys + [k];
      assert keys'[..|keys'| - 1] == m.keys;
      BagFresh(m.vals, m.keys, k, [w]);
    }
  }

  /** Every key of the table has a non-empty group. */
  lemma {:induction false} GroupsNonEmpty<W, K>(words: seq<W>, key: W -> K, k: K)
    requires k in GroupBy(words, key).vals
    ensures |GroupBy(words, key).vals[k]| > 0
  {
    var m := GroupBy(words, key);
    GroupByKeys(words, key);
    GroupByMembers(words, key, k);
    var ks := KeysOf(words, key);
    assert k in Dedup(ks);
    var j :| 0 <= j < |ks| && ks[j] == k;
    MembersCount(words, key, k, words[j]);
    assert words[j] in multiset(words);
  }

  /** Every word sits in the group of its own key and in no other group. */
  lemma {:induction false} GroupOfWord<W, K>(words: seq<W>, key: W -> K, w: W, k: K)
    requires w in words
    ensures key(w) in GroupBy(words, key).vals
    ensures k in GroupBy(words, key).vals ==> (w in GroupBy(words, key).vals[k] <==> k == key(w))
  {
    var m := GroupBy(words, key);
    GroupByKeys(words, key);
    var ks := KeysOf(words, key);
    var j :| 0 <= j < |words| && words[j] == w;
    assert ks[j] == key(w);
    assert key(w) in Dedup(ks);
    MembersCount(words, key, key(w), w);
    GroupByMembers(words, key, key(w));
    assert w in multiset(words);
    assert w in multiset(m.vals[key(w)]);
    if k in m.vals {
      GroupByMembers(words, key, k);
      MembersCount(words, key, k, w);
      assert w in m.vals[k] <==> w in multiset(m.vals[k]);
    }
  }

  /** What every enumeration order of the grouping table guarantees: the
      concatenated groups are a permutation of the input, and each listed
      group is non-empty and holds exactly the words with its key, in input
      order. */
  lemma {:induction false} GroupingProperties<W, K>(words: seq<W>, key: W -> K, order: seq<K>)
    requires multiset(order) == multiset(GroupBy(words, key).keys)
    ensures Listed(GroupBy(words, key).vals, order)
    ensures Distinct(order)
    ensures multiset(Concat(GroupsOf(GroupBy(words, key).vals, order))) == multiset(words)
    ensures forall i | 0 <= i < |order| ::
      var g := GroupBy(words, key).vals[order[i]]; |g| > 0 && g == Members(words, key, order[i])
  {
    var m := GroupBy(words, key);
    assert Listed(m.vals, m.keys);
    GroupByPermutation(words, key);
    BagReorder(m.vals, m.keys, order);
    BagIsConcat(m.vals, order);
    DistinctPermutation(m.keys, order);
    forall i | 0 <= i < |order|
      ensures |m.vals[order[i]]| > 0 && m.vals[order[i]] == Members(words, key, order[i])
    {
      GroupsNonEmpty(words, key, order[i]);
      GroupByMembers(words, key, order[i]);
    }
  }
}
