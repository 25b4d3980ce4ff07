/** Grouping a sequence into buckets by a key, one bucket per distinct key, the buckets
    in the order in which their keys first appear. This is what both grouping loops of
    the pack analysis do: the dictionary of y-values keyed by their rounded value, and
    the Map of position records keyed by their (already rounded) y. */
module Grouping {

  /** The key of every element, in order. */
  function Keys<T, K>(s: seq<T>, key: T -> K): seq<K> {
    seq(|s|, i requires 0 <= i < |s| => key(s[i]))
  }

  predicate NoDuplicates<K(==)>(s: seq<K>) {
    forall i, j :: 0 <= i < j < |s| ==> s[i] != s[j]
  }

  /** The distinct values of ks, each at the place of its first occurrence
      (what iterating a JavaScript Set built from ks yields). */
  function Distinct<K(==)>(ks: seq<K>): (d: seq<K>)
    ensures |d| <= |ks|
  {
    if ks == [] then []
    else
      var init, last := ks[..|ks| - 1], ks[|ks| - 1];
      assert ks == init + [last];
      var d := Distinct(init);
      if last in d then d else d + [last]
  }

  /** The position of the first occurrence of k in ks. */
  function FirstIndex<K(==)>(ks: seq<K>, k: K): (i: nat)
    requires k in ks
    ensures i < |ks| && ks[i] == k
    ensures forall j :: 0 <= j < i ==> ks[j] != k
  {
    if ks[0] == k then 0 else 1 + FirstIndex(ks[1..], k)
  }

  /** The elements of s whose key is k, in their order in s. */
  function Select<T(==), K(==)>(s: seq<T>, key: T -> K, k: K): (r: seq<T>)
    ensures |r| <= |s|
  {
    if s == [] then []
    else
      var init, last := s[..|s| - 1], s[|s| - 1];
      assert s == init + [last];
      var r := Select(init, key, k);
      if key(last) == k then r + [last] else r
  }

  /** The bucket of each key of d, in the order of d. */
  function Buckets<T(==), K(==)>(s: seq<T>, key: T -> K, d: seq<K>): (g: seq<seq<T>>)
    ensures |g| == |d|
    ensures forall j :: 0 <= j < |d| ==> g[j] == Select(s, key, d[j])
  {
    if d == [] then []
    else Buckets(s, key, d[..|d| - 1]) + [Select(s, key, d[|d| - 1])]
  }

  /** One bucket per distinct key of s, in order of first appearance of the key. */
  function Group<T(==), K(==)>(s: seq<T>, key: T -> K): seq<seq<T>> {
    Buckets(s, key, Distinct(Keys(s, key)))
  }

  /** All buckets, one after the other. */
  function Flatten<T>(g: seq<seq<T>>): seq<T> {
    if g == [] then [] else Flatten(g[..|g| - 1]) + g[|g| - 1]
  }

  /** The grouping loop: a dictionary from key to bucket and the list of keys in
      insertion order; a new key opens a bucket, a known key appends to its bucket. */
  method GroupInOrder<T(==), K(==)>(s: seq<T>, key: T -> K) returns (groups: seq<seq<T>>)
    ensures groups == Group(s, key)
  {
    var order: seq<K> := [];
    var buckets: map<K, seq<T>> := map[];
    for i := 0 to |s|
      invariant IsDictionary(s[..i], key, order, buckets)
    {
      var x := s[i];
      var k := key(x);
      assert s[..i + 1] == s[..i] + [x];
      if k in buckets {
        DictionaryAppend(s[..i], key, x, order, buckets);
        buckets := buckets[k := buckets[k] + [x]];
      } else {
        DictionaryOpen(s[..i], key, x, order, buckets);
        buckets := buckets[k := [x]];
        order := order + [k];
      }
    }
    assert s[..|s|] == s;
    groups := seq(|order|, j requires 0 <= j < |order| => buckets[order[j]]);
    BucketsFromDictionary(s, key, order, buckets);
  }

  /** The state of the grouping loop after the prefix p: the keys in insertion order,
      and the bucket of each key. */
  ghost predicate IsDictionary<T, K>(p: seq<T>, key: T -> K, order: seq<K>, buckets: map<K, seq<T>>) {
    && order == Distinct(Keys(p, key))
    && (forall k :: k in buckets ==> k in order)
    && (forall k :: k in order ==> k in buckets)
    && (forall k :: k in buckets ==> buckets[k] == Select(p, key, k))
  }

  /** A loop step whose key is already known appends to that key's bucket. */
  lemma DictionaryAppend<T, K>(p: seq<T>, key: T -> K, x: T, order: seq<K>, buckets: map<K, seq<T>>)
    requires IsDictionary(p, key, order, buckets) && key(x) in buckets
    ensures IsDictionary(p + [x], key, order, buckets[key(x) := buckets[key(x)] + [x]])
  {
    KeysSnoc(p, key, x);
    DistinctSnoc(Keys(p, key), key(x));
    forall k | k in buckets ensures Select(p + [x], key, k) == Select(p, key, k) + (if key(x) == k then [x] else []) {
      SelectSnoc(p, key, x, k);
    }
  }

  /** A loop step with a new key opens a bucket for it at the end of the order. */
  lemma DictionaryOpen<T, K>(p: seq<T>, key: T -> K, x: T, order: seq<K>, buckets: map<K, seq<T>>)
    requires IsDictionary(p, key, order, buckets) && key(x) !in buckets
    ensures IsDictionary(p + [x], key, order + [key(x)], buckets[key(x) := [x]])
  {
    KeysSnoc(p, key, x);
    DistinctSnoc(Keys(p, key), key(x));
    DistinctMembers(Keys(p, key));
    SelectAbsent(p, key, key(x));
    SelectSnoc(p, key, x, key(x));
    forall k | k in buckets ensures Select(p + [x], key, k) == Select(p, key, k) {
      SelectSnoc(p, key, x, k);
    }
  }

  /** Reading the dictionary's buckets in key order gives the buckets of those keys. */
  lemma BucketsFromDictionary<T, K>(s: seq<T>, key: T -> K, d: seq<K>, buckets: map<K, seq<T>>)
    requires forall k :: k in d ==> k in buckets && buckets[k] == Select(s, key, k)
    ensures seq(|d|, j requires 0 <= j < |d| => buckets[d[j]]) == Buckets(s, key, d)
  {
    var g := seq(|d|, j requires 0 <= j < |d| => buckets[d[j]]);
    forall j | 0 <= j < |d| ensures g[j] == Buckets(s, key, d)[j] {
      assert d[j] in d;
    }
  }

  lemma KeysSnoc<T, K>(s: seq<T>, key: T -> K, x: T)
    ensures Keys(s + [x], key) == Keys(s, key) + [key(x)]
  {
  }

  lemma DistinctSnoc<K>(ks: seq<K>, k: K)
    ensures Distinct(ks + [k]) == if k in Distinct(ks) then Distinct(ks) else Distinct(ks) + [k]
  {
    assert (ks + [k])[..|ks|] == ks;
  }

  /** Distinct keeps exactly the values of ks, each once. */
  lemma {:induction false} DistinctMembers<K>(ks: seq<K>)
    ensures forall k :: k in Distinct(ks) ==> k in ks
    ensures forall k :: k in ks ==> k in Distinct(ks)
    ensures NoDuplicates(Distinct(ks))
  {
    if ks != [] {
      var init, last := ks[..|ks| - 1], ks[|ks| - 1];
      assert ks == init + [last];
      DistinctMembers(init);
    }
  }

  /** Select keeps exactly the elements of s with key k. */
  lemma {:induction false} SelectMembers<T, K>(s: seq<T>, key: T -> K, k: K)
    ensures forall x :: x in Select(s, key, k) ==> x in s && key(x) == k
    ensures forall x :: x in s && key(x) == k ==> x in Select(s, key, k)
  {
    if s != [] {
      var init, last := s[..|s| - 1], s[|s| - 1];
      assert s == init + [last];
      SelectMembers(init, key, k);
    }
  }

  lemma KeyInKeys<T, K>(s: seq<T>, key: T -> K, i: nat)
    requires i < |s|
    ensures key(s[i]) in Keys(s, key)
  {
    assert Keys(s, key)[i] == key(s[i]);
  }

  /** Distinct keys as a set: the number of distinct values is the size of their set. */
  lemma {:induction false} NoDuplicatesCard<K>(d: seq<K>)
    requires NoDuplicates(d)
    ensures |set k | k in d| == |d|
  {
    if d != [] {
      var init, last := d[..|d| - 1], d[|d| - 1];
      assert d == init + [last];
      NoDuplicatesCard(init);
      assert (set k | k in d) == (set k | k in init) + {last};
      assert last !in init;
    }
  }

  /** The number of distinct values is the size of their set. */
  lemma DistinctCard<K>(ks: seq<K>)
    ensures |Distinct(ks)| == |set k | k in ks|
  {
    DistinctMembers(ks);
    NoDuplicatesCard(Distinct(ks));
    assert (set k | k in Distinct(ks)) == (set k | k in ks);
  }

  /** The number of groups is the number of distinct keys among the elements. */
  lemma GroupCount<T, K>(s: seq<T>, key: T -> K, keys: set<K>)
    requires forall x :: x in s ==> key(x) in keys
    requires forall k :: k in keys ==> exists x :: x in s && key(x) == k
    ensures |Group(s, key)| == |keys|
  {
    var ks := Keys(s, key);
    DistinctCard(ks);
    forall k | k in ks ensures k in keys {
      var i :| 0 <= i < |ks| && ks[i] == k;
      assert s[i] in s;
    }
    forall k | k in keys ensures k in ks {
      var x :| x in s && key(x) == k;
      var i :| 0 <= i < |s| && s[i] == x;
      KeyInKeys(s, key, i);
    }
    assert (set k | k in ks) == keys;
  }

  /** Every group is non-empty and all its members carry the same key; the keys of
      different groups differ. */
  lemma GroupLayers<T, K>(s: seq<T>, key: T -> K)
    ensures forall j :: 0 <= j < |Group(s, key)| ==> Group(s, key)[j] != []
    ensures forall j, x :: 0 <= j < |Group(s, key)| && x in Group(s, key)[j] ==>
              x in s && key(x) == key(Group(s, key)[j][0])
    ensures forall i, j :: 0 <= i < j < |Group(s, key)| ==>
              key(Group(s, key)[i][0]) != key(Group(s, key)[j][0])
  {
    var g, d, ks := Group(s, key), Distinct(Keys(s, key)), Keys(s, key);
    DistinctMembers(ks);
    forall j | 0 <= j < |g|
      ensures g[j] != [] && key(g[j][0]) == d[j]
      ensures forall x :: x in g[j] ==> x in s && key(x) == d[j]
    {
      SelectMembers(s, key, d[j]);
      assert d[j] in ks;
      var i :| 0 <= i < |ks| && ks[i] == d[j];
      assert s[i] in g[j];
      assert g[j][0] in g[j];
    }
  }

  /** Every element of s lies in exactly one group. */
  lemma GroupExactlyOne<T, K>(s: seq<T>, key: T -> K, x: T)
    requires x in s
    ensures exists j :: 0 <= j < |Group(s, key)| && x in Group(s, key)[j]
    ensures forall i, j ::
              (0 <= i < |Group(s, key)| && 0 <= j < |Group(s, key)| &&
               x in Group(s, key)[i] && x in Group(s, key)[j]) ==> i == j
  {
    var g, d := Group(s, key), Distinct(Keys(s, key));
    DistinctMembers(Keys(s, key));
    var n :| 0 <= n < |s| && s[n] == x;
    KeyInKeys(s, key, n);
    var j :| 0 <= j < |d| && d[j] == key(x);
    SelectMembers(s, key, key(x));
    assert x in g[j];
    forall i | 0 <= i < |g| && x in g[i] ensures d[i] == key(x) {
      SelectMembers(s, key, d[i]);
    }
  }

  /** Groups appear in the order in which their keys first occur in s. */
  lemma GroupOrder<T, K>(s: seq<T>, key: T -> K)
    ensures forall i, j :: 0 <= i < j < |Group(s, key)| ==>
              Group(s, key)[i] != [] && Group(s, key)[j] != [] &&
              key(Group(s, key)[i][0]) in Keys(s, key) && key(Group(s, key)[j][0]) in Keys(s, key) &&
              FirstIndex(Keys(s, key), key(Group(s, key)[i][0])) <
              FirstIndex(Keys(s, key), key(Group(s, key)[j][0]))
  {
    var g, d, ks := Group(s, key), Distinct(Keys(s, key)), Keys(s, key);
    GroupLayers(s, key);
    DistinctFirstOccurrence(ks);
    forall j | 0 <= j < |g| ensures key(g[j][0]) == d[j] {
      SelectMembers(s, key, d[j]);
      assert g[j][0] in g[j];
    }
  }

  lemma FirstIndexPrefix<K>(ks: seq<K>, n: nat, k: K)
    requires n <= |ks| && k in ks[..n]
    ensures k in ks && FirstIndex(ks, k) == FirstIndex(ks[..n], k)
  {
    var a, b := FirstIndex(ks, k), FirstIndex(ks[..n], k);
    assert ks[b] == k;
    assert a <= b;
    assert ks[..n][a] == k;
  }

  /** The distinct values come in the order of their first occurrences. */
  lemma {:induction false} DistinctFirstOccurrence<K>(ks: seq<K>)
    ensures forall k :: k in Distinct(ks) ==> k in ks
    ensures forall i, j :: 0 <= i < j < |Distinct(ks)| ==>
              FirstIndex(ks, Distinct(ks)[i]) < FirstIndex(ks, Distinct(ks)[j])
  {
    if ks != [] {
      var init, last := ks[..|ks| - 1], ks[|ks| - 1];
      assert ks == init + [last];
      DistinctFirstOccurrence(init);
      DistinctMembers(ks);
      DistinctMembers(init);
      var d0, d := Distinct(init), Distinct(ks);
      forall k | k in init ensures FirstIndex(ks, k) == FirstIndex(init, k) {
        FirstIndexPrefix(ks, |init|, k);
      }
      if last !in d0 {
        assert d == d0 + [last];
        assert FirstIndex(ks, last) == |init|;
      }
    }
  }

  /** A key no element carries selects nothing. */
  lemma SelectAbsent<T, K>(s: seq<T>, key: T -> K, k: K)
    requires k !in Keys(s, key)
    ensures Select(s, key, k) == []
  {
    if Select(s, key, k) != [] {
      var y := Select(s, key, k)[0];
      SelectMembers(s, key, k);
      assert y in Select(s, key, k);
      var n :| 0 <= n < |s| && s[n] == y;
      KeyInKeys(s, key, n);
    }
  }

  lemma SelectSnoc<T, K>(s: seq<T>, key: T -> K, x: T, k: K)
    ensures Select(s + [x], key, k) == Select(s, key, k) + (if key(x) == k then [x] else [])
  {
    assert (s + [x])[..|s|] == s;
  }

  lemma FlattenSnoc<T>(g: seq<seq<T>>, b: seq<T>)
    ensures Flatten(g + [b]) == Flatten(g) + b
  {
    assert (g + [b])[..|g|] == g;
  }

  /** The buckets of s for a list of distinct keys d, flattened, gain x when s gains x
      and x's key is one of d. */
  lemma {:induction false} BucketsSnoc<T, K>(s: seq<T>, key: T -> K, x: T, d: seq<K>)
    requires NoDuplicates(d)
    ensures multiset(Flatten(Buckets(s + [x], key, d))) ==
            multiset(Flatten(Buckets(s, key, d))) + (if key(x) in d then multiset{x} else multiset{})
  {
    if d != [] {
      var init, k := d[..|d| - 1], d[|d| - 1];
      assert d == init + [k];
      BucketsSnoc(s, key, x, init);
      FlattenSnoc(Buckets(s + [x], key, init), Select(s + [x], key, k));
      FlattenSnoc(Buckets(s, key, init), Select(s, key, k));
      SelectSnoc(s, key, x, k);
      assert k !in init;
    }
  }

  /** The groups together hold exactly the elements of s, each as often as in s. */
  lemma {:induction false} GroupPartition<T, K>(s: seq<T>, key: T -> K)
    ensures multiset(Flatten(Group(s, key))) == multiset(s)
  {
    if s != [] {
      var init, x := s[..|s| - 1], s[|s| - 1];
      assert s == init + [x];
      GroupPartition(init, key);
      var ks0 := Keys(init, key);
      KeysSnoc(init, key, x);
      DistinctSnoc(ks0, key(x));
      var d0 := Distinct(ks0);
      DistinctMembers(ks0);
      BucketsSnoc(init, key, x, d0);
      if key(x) !in d0 {
        FlattenSnoc(Buckets(s, key, d0), Select(s, key, key(x)));
        SelectSnoc(init, key, x, key(x));
        SelectAbsent(init, key, key(x));
      }
    }
  }
}
