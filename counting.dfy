/**
 * The part of `collections.Counter` that `extract_deepseek_insights` (app.py)
 * relies on: counting keys one at a time (`counter[k] += 1`, items kept in
 * insertion order) and `most_common(n)`, which orders the items by descending
 * count, keeps equal counts in insertion order, and takes the first `n`.
 */
module Counting {
  import opened Wrappers

  /** One `(key, count)` item of a counter. */
  datatype Entry<K> = Entry(key: K, count: nat)

  ghost predicate Distinct<T>(s: seq<T>) {
    forall i, j :: 0 <= i < j < |s| ==> s[i] != s[j]
  }

  /** The keys of a counter's items, in item order. */
  function KeysOf<K>(items: seq<Entry<K>>): (ks: seq<K>)
    ensures |ks| == |items|
    ensures forall i :: 0 <= i < |items| ==> ks[i] == items[i].key
  {
    seq(|items|, i requires 0 <= i < |items| => items[i].key)
  }

  /** How often `k` occurs in `keys`. */
  function Occurrences<K(==)>(keys: seq<K>, k: K): nat {
    multiset(keys)[k]
  }

  /** Position of the first occurrence of `x` in `s`; `|s|` when there is none. */
  function IndexOf<T(==)>(s: seq<T>, x: T): (r: nat)
    ensures r <= |s|
    ensures r < |s| <==> x in s
    ensures r < |s| ==> s[r] == x
    ensures forall j :: 0 <= j < r ==> s[j] != x
  {
    if s == [] then 0 else if s[0] == x then 0 else 1 + IndexOf(s[1..], x)
  }

  /** Appending leaves the first occurrence of every earlier element where it was. */
  lemma IndexOfAppend<T>(s: seq<T>, y: T, x: T)
    ensures IndexOf(s + [y], x) == if x in s then IndexOf(s, x) else if x == y then |s| else |s| + 1
  {
    var r := IndexOf(s + [y], x);
    var q := IndexOf(s, x);
    if x in s {
      assert (s + [y])[q] == x;
      assert forall j :: 0 <= j < q ==> (s + [y])[j] == s[j];
    } else {
      assert forall j :: 0 <= j < |s| ==> (s + [y])[j] != x;
    }
  }

  /** `counter[k] += 1`: bump the item of `k` in place, or append a new item with count 1. */
  function Bump<K(==)>(items: seq<Entry<K>>, k: K): (r: seq<Entry<K>>)
  {
    if items == [] then [Entry(k, 1)]
    else if items[0].key == k then [Entry(k, items[0].count + 1)] + items[1..]
    else [items[0]] + Bump(items[1..], k)
  }

  /** Bumping an absent key appends it; bumping a present key changes only its count. */
  lemma {:induction false} BumpAt<K>(items: seq<Entry<K>>, k: K)
    requires Distinct(KeysOf(items))
    ensures k !in KeysOf(items) ==> Bump(items, k) == items + [Entry(k, 1)]
    ensures k in KeysOf(items) ==> |Bump(items, k)| == |items|
    ensures k in KeysOf(items) ==> forall i :: 0 <= i < |items| ==>
      Bump(items, k)[i] == if items[i].key == k then Entry(k, items[i].count + 1) else items[i]
  {
    if items != [] {
      var tail := items[1..];
      assert KeysOf(tail) == KeysOf(items)[1..];
      if items[0].key != k {
        BumpAt(tail, k);
        var r := Bump(items, k);
        assert r == [items[0]] + Bump(tail, k);
        if k in KeysOf(items) {
          assert k in KeysOf(tail);
          forall i | 0 <= i < |items|
            ensures r[i] == if items[i].key == k then Entry(k, items[i].count + 1) else items[i]
          {
            if i > 0 {
              assert r[i] == Bump(tail, k)[i - 1] && items[i] == tail[i - 1];
            }
          }
        } else {
          assert k !in KeysOf(tail);
          assert [items[0]] + (tail + [Entry(k, 1)]) == items + [Entry(k, 1)];
        }
      } else {
        forall i | 1 <= i < |items| ensures items[i].key != k {
          assert KeysOf(items)[0] != KeysOf(items)[i];
        }
      }
    }
  }

  /** The counter built by counting `keys` one after the other, items in insertion order. */
  function Tally<K(==)>(keys: seq<K>): (r: seq<Entry<K>>)
  {
    if keys == [] then [] else Bump(Tally(keys[..|keys| - 1]), keys[|keys| - 1])
  }

  /** Counting one more key bumps the counter built so far. */
  lemma TallyAppend<K>(keys: seq<K>, k: K)
    ensures Tally(keys + [k]) == Bump(Tally(keys), k)
  {
    assert (keys + [k])[..|keys|] == keys;
  }

  /** The counter has one item per distinct key. */
  lemma {:induction false} TallyKeys<K>(keys: seq<K>)
    ensures Distinct(KeysOf(Tally(keys)))
    ensures forall k :: k in KeysOf(Tally(keys)) <==> k in keys
  {
    if keys != [] {
      var init, x := keys[..|keys| - 1], keys[|keys| - 1];
      assert keys == init + [x];
      TallyKeys(init);
      var t := Tally(init);
      BumpAt(t, x);
      if x in KeysOf(t) {
        assert KeysOf(Tally(keys)) == KeysOf(t);
      } else {
        assert KeysOf(Tally(keys)) == KeysOf(t) + [x];
      }
    }
  }

  /** Each item's count is the number of occurrences of its key. */
  lemma {:induction false} TallyCounts<K>(keys: seq<K>)
    ensures forall i :: 0 <= i < |Tally(keys)| ==> Tally(keys)[i].count == Occurrences(keys, Tally(keys)[i].key)
  {
    if keys != [] {
      var init, x := keys[..|keys| - 1], keys[|keys| - 1];
      assert keys == init + [x];
      TallyCounts(init);
      TallyKeys(init);
      var t := Tally(init);
      BumpAt(t, x);
      assert forall k :: Occurrences(keys, k) == Occurrences(init, k) + if k == x then 1 else 0;
      if x !in KeysOf(t) {
        assert Occurrences(init, x) == 0;
      }
    }
  }

  /** The items are in order of first occurrence of their keys. */
  lemma {:induction false} TallyFirstSeenOrder<K>(keys: seq<K>)
    ensures FirstSeenOrdered(Tally(keys), keys)
  {
    if keys != [] {
      var init, x := keys[..|keys| - 1], keys[|keys| - 1];
      assert keys == init + [x];
      TallyFirstSeenOrder(init);
      TallyKeys(init);
      var t := Tally(init);
      assert Tally(keys) == Bump(t, x);
      BumpAt(t, x);
      forall i | 0 <= i < |t| ensures IndexOf(keys, t[i].key) == IndexOf(init, t[i].key) < |init| {
        assert t[i].key == KeysOf(t)[i];
        IndexOfAppend(init, x, t[i].key);
      }
      if x in KeysOf(t) {
        SameKeysOrdered(t, Bump(t, x), init, keys);
      } else {
        IndexOfAppend(init, x, x);
        AppendedKeyOrdered(t, x, init, keys);
      }
    }
  }

  /** The items' keys are in order of their first occurrence in `keys`. */
  ghost predicate FirstSeenOrdered<K>(items: seq<Entry<K>>, keys: seq<K>) {
    forall i, j :: 0 <= i < j < |items| ==> IndexOf(keys, items[i].key) < IndexOf(keys, items[j].key)
  }

  /** Bumping a present key keeps the keys, and so their order. */
  lemma SameKeysOrdered<K>(t: seq<Entry<K>>, u: seq<Entry<K>>, init: seq<K>, keys: seq<K>)
    requires FirstSeenOrdered(t, init)
    requires |u| == |t| && forall i :: 0 <= i < |t| ==> u[i].key == t[i].key
    requires forall i :: 0 <= i < |t| ==> IndexOf(keys, t[i].key) == IndexOf(init, t[i].key)
    ensures FirstSeenOrdered(u, keys)
  {
  }

  /** Bumping an absent key appends it after every key seen before it. */
  lemma AppendedKeyOrdered<K>(t: seq<Entry<K>>, x: K, init: seq<K>, keys: seq<K>)
    requires FirstSeenOrdered(t, init)
    requires forall i :: 0 <= i < |t| ==> IndexOf(keys, t[i].key) == IndexOf(init, t[i].key) < |init|
    requires IndexOf(keys, x) == |init|
    ensures FirstSeenOrdered(t + [Entry(x, 1)], keys)
  {
    var u := t + [Entry(x, 1)];
    forall i, j | 0 <= i < j < |u| ensures IndexOf(keys, u[i].key) < IndexOf(keys, u[j].key) {
      assert u[i] == t[i];
      if j < |t| {
        assert u[j] == t[j];
      } else {
        assert u[j].key == x;
      }
    }
  }

  /** Places `e` after every item whose count is at least `e`'s, before the first smaller one. */
  function Insert<K(==)>(sorted: seq<Entry<K>>, e: Entry<K>): (r: seq<Entry<K>>)
    ensures multiset(r) == multiset(sorted) + multiset{e}
  {
    if sorted == [] then [e]
    else if sorted[0].count >= e.count then
      assert sorted == [sorted[0]] + sorted[1..];
      [sorted[0]] + Insert(sorted[1..], e)
    else [e] + sorted
  }

  /** `sorted(items, key=count, reverse=True)`, which is stable: an insertion sort. */
  function SortByCount<K(==)>(items: seq<Entry<K>>): (r: seq<Entry<K>>)
    ensures multiset(r) == multiset(items)
  {
    if items == [] then []
    else
      assert items == items[..|items| - 1] + [items[|items| - 1]];
      Insert(SortByCount(items[..|items| - 1]), items[|items| - 1])
  }

  /** `Counter.most_common(n)`: the first `n` items by descending count. */
  function MostCommon<K(==)>(items: seq<Entry<K>>, n: nat): (r: seq<Entry<K>>)
    ensures |r| == Min(n, |items|)
  {
    var sorted := SortByCount(items);
    assert |sorted| == |multiset(sorted)| == |multiset(items)| == |items|;
    sorted[..Min(n, |sorted|)]
  }

  /** `a` comes before `b` in `most_common`: a larger count, or the same count and inserted earlier. */
  ghost predicate RankedBefore<K>(items: seq<Entry<K>>, a: Entry<K>, b: Entry<K>) {
    a.count > b.count || (a.count == b.count && IndexOf(items, a) < IndexOf(items, b))
  }

  ghost predicate SortedByRank<K>(s: seq<Entry<K>>, items: seq<Entry<K>>) {
    forall i, j :: 0 <= i < j < |s| ==> RankedBefore(items, s[i], s[j])
  }

  /** Inserting an item that was inserted after all the others keeps the order. */
  lemma {:induction false} InsertSorted<K>(sorted: seq<Entry<K>>, e: Entry<K>, items: seq<Entry<K>>)
    requires SortedByRank(sorted, items)
    requires forall x :: x in sorted ==> IndexOf(items, x) < IndexOf(items, e)
    ensures SortedByRank(Insert(sorted, e), items)
  {
    if sorted != [] {
      var r := Insert(sorted, e);
      if sorted[0].count >= e.count {
        var tail := Insert(sorted[1..], e);
        InsertSorted(sorted[1..], e, items);
        assert r == [sorted[0]] + tail;
        forall j | 1 <= j < |r| ensures RankedBefore(items, r[0], r[j]) {
          var y := r[j];
          assert y == tail[j - 1];
          assert y in multiset(tail);
          if y != e {
            assert y in multiset(sorted[1..]);
            var m :| 0 <= m < |sorted[1..]| && sorted[1..][m] == y;
            assert RankedBefore(items, sorted[0], sorted[m + 1]);
          } else {
            assert sorted[0] in sorted;
          }
        }
      } else {
        forall j | 0 <= j < |sorted| ensures sorted[j].count < e.count {
          if j > 0 {
            assert RankedBefore(items, sorted[0], sorted[j]);
          }
        }
      }
    }
  }

  /** The last element of a sequence without repetitions does not occur before it. */
  lemma LastIsNew<T>(s: seq<T>)
    requires Distinct(s) && s != []
    ensures s[|s| - 1] !in s[..|s| - 1]
  {
    var init := s[..|s| - 1];
    forall j | 0 <= j < |init| ensures init[j] != s[|s| - 1] {
      assert init[j] == s[j];
    }
  }

  /**
   * Appending a new item to the insertion order keeps a ranking of the earlier
   * items, and puts every earlier item before the new one.
   */
  lemma RankAfterAppend<K>(s: seq<Entry<K>>, init: seq<Entry<K>>, e: Entry<K>)
    requires forall x :: x in s ==> x in init
    requires e !in init
    requires SortedByRank(s, init)
    ensures SortedByRank(s, init + [e])
    ensures forall x :: x in s ==> IndexOf(init + [e], x) < IndexOf(init + [e], e)
  {
    IndexOfAppend(init, e, e);
    forall x | x in s ensures IndexOf(init + [e], x) == IndexOf(init, x) < |init| {
      IndexOfAppend(init, e, x);
    }
    forall i, j | 0 <= i < j < |s| ensures RankedBefore(init + [e], s[i], s[j]) {
      assert s[i] in s && s[j] in s;
      assert RankedBefore(init, s[i], s[j]);
    }
  }

  /** The sort orders by descending count and keeps equal counts in insertion order. */
  lemma {:induction false} SortByCountSorted<K>(items: seq<Entry<K>>)
    requires Distinct(items)
    ensures SortedByRank(SortByCount(items), items)
  {
    if items != [] {
      var init, e := items[..|items| - 1], items[|items| - 1];
      assert items == init + [e];
      assert Distinct(init) by {
        forall i, j | 0 <= i < j < |init| ensures init[i] != init[j] {
          assert init[i] == items[i] && init[j] == items[j];
        }
      }
      SortByCountSorted(init);
      var s := SortByCount(init);
      forall x | x in s ensures x in init {
        assert x in multiset(s);
      }
      LastIsNew(items);
      RankAfterAppend(s, init, e);
      InsertSorted(s, e, items);
    }
  }

  /** A prefix of a ranked sequence is ranked, and every element after it ranks after each of its elements. */
  lemma RankedPrefix<K>(s: seq<Entry<K>>, items: seq<Entry<K>>, len: nat)
    requires SortedByRank(s, items) && len <= |s|
    ensures SortedByRank(s[..len], items)
    ensures forall e, i :: e in s && e !in s[..len] && 0 <= i < len ==> RankedBefore(items, s[..len][i], e)
  {
    var r := s[..len];
    forall i, j | 0 <= i < j < |r| ensures RankedBefore(items, r[i], r[j]) {
      assert r[i] == s[i] && r[j] == s[j];
    }
    forall e, i | e in s && e !in r && 0 <= i < len ensures RankedBefore(items, r[i], e) {
      var m :| 0 <= m < |s| && s[m] == e;
      assert r[i] == s[i];
    }
  }

  /**
   * `most_common(n)` on items with distinct entries: `min(n, |items|)` items
   * taken from `items`, counts non-increasing, equal counts in insertion order,
   * and every item left out ranks after every item kept.
   */
  lemma MostCommonSpec<K>(items: seq<Entry<K>>, n: nat)
    requires Distinct(items)
    ensures |MostCommon(items, n)| == Min(n, |items|)
    ensures multiset(MostCommon(items, n)) <= multiset(items)
    ensures SortedByRank(MostCommon(items, n), items)
    ensures forall e, i :: e in items && e !in MostCommon(items, n) && 0 <= i < |MostCommon(items, n)| ==>
      RankedBefore(items, MostCommon(items, n)[i], e)
  {
    var s := SortByCount(items);
    var len := Min(n, |s|);
    SortByCountSorted(items);
    assert |s| == |multiset(s)| == |items|;
    assert s == s[..len] + s[len..];
    assert multiset(s[..len]) <= multiset(s);
    forall e | e in items ensures e in s {
      assert e in multiset(items);
    }
    RankedPrefix(s, items, len);
  }

  /** A sequence without repetitions has as many elements as its set. */
  lemma {:induction false} DistinctCardinality<T>(s: seq<T>)
    requires Distinct(s)
    ensures |set x | x in s| == |s|
  {
    if s != [] {
      var init := s[..|s| - 1];
      DistinctCardinality(init);
      assert s == init + [s[|s| - 1]];
      assert s[|s| - 1] !in init;
      assert (set x | x in s) == (set x | x in init) + {s[|s| - 1]};
    }
  }

  /** The counter's items are all different, since their keys are. */
  lemma TallyDistinct<K>(keys: seq<K>)
    ensures Distinct(Tally(keys))
  {
    var items := Tally(keys);
    TallyKeys(keys);
    forall i, j | 0 <= i < j < |items| ensures items[i] != items[j] {
      assert KeysOf(items)[i] != KeysOf(items)[j];
    }
  }

  /** The counter has one item per distinct key. */
  lemma TallyCardinality<K>(keys: seq<K>)
    ensures |Tally(keys)| == |set k | k in keys|
  {
    var items := Tally(keys);
    TallyKeys(keys);
    DistinctCardinality(KeysOf(items));
    assert (set k | k in keys) == (set k | k in KeysOf(items));
  }

  /**
   * `Counter(keys).most_common(n)` holds as many items as `n` allows and there
   * are distinct keys, each a key of `keys` with its number of occurrences.
   */
  lemma MostCommonOfTallyCounts<K>(keys: seq<K>, n: nat)
    ensures |MostCommon(Tally(keys), n)| == Min(n, |set k | k in keys|)
    ensures forall i :: 0 <= i < |MostCommon(Tally(keys), n)| ==>
      var e := MostCommon(Tally(keys), n)[i];
      e.key in keys && e.count == Occurrences(keys, e.key)
  {
    var items := Tally(keys);
    var r := MostCommon(items, n);
    TallyKeys(keys);
    TallyCounts(keys);
    TallyDistinct(keys);
    MostCommonSpec(items, n);
    TallyCardinality(keys);
    forall i | 0 <= i < |r| ensures r[i].key in keys && r[i].count == Occurrences(keys, r[i].key) {
      assert r[i] in multiset(items);
      var p := IndexOf(items, r[i]);
      assert KeysOf(items)[p] == r[i].key;
    }
  }

  /**
   * Between two counter items, ranking first means a different key that
   * occurs more often, or as often and was first seen earlier.
   */
  lemma TallyRanked<K>(keys: seq<K>, a: Entry<K>, b: Entry<K>)
    requires a in Tally(keys) && b in Tally(keys)
    requires RankedBefore(Tally(keys), a, b)
    ensures a.key != b.key
    ensures a.count > b.count || (a.count == b.count && IndexOf(keys, a.key) < IndexOf(keys, b.key))
  {
    var items := Tally(keys);
    TallyKeys(keys);
    TallyFirstSeenOrder(keys);
    var p, q := IndexOf(items, a), IndexOf(items, b);
    assert p != q;
    assert KeysOf(items)[p] != KeysOf(items)[q];
  }

  /**
   * `Counter(keys).most_common(n)` holds no key twice, its counts are
   * non-increasing, and equal counts are in order of first occurrence.
   */
  lemma MostCommonOfTallyOrder<K>(keys: seq<K>, n: nat)
    ensures Distinct(KeysOf(MostCommon(Tally(keys), n)))
    ensures forall i, j :: 0 <= i < j < |MostCommon(Tally(keys), n)| ==>
      var a, b := MostCommon(Tally(keys), n)[i], MostCommon(Tally(keys), n)[j];
      a.count > b.count || (a.count == b.count && IndexOf(keys, a.key) < IndexOf(keys, b.key))
  {
    var items := Tally(keys);
    var r := MostCommon(items, n);
    TallyDistinct(keys);
    MostCommonSpec(items, n);
    forall i, j | 0 <= i < j < |r|
      ensures r[i].count > r[j].count || (r[i].count == r[j].count && IndexOf(keys, r[i].key) < IndexOf(keys, r[j].key))
      ensures r[i].key != r[j].key
    {
      assert r[i] in multiset(items) && r[j] in multiset(items);
      TallyRanked(keys, r[i], r[j]);
    }
  }

  /**
   * A key that `Counter(keys).most_common(n)` leaves out occurs less often
   * than each key it keeps, or as often and first seen later.
   */
  lemma MostCommonOfTallyTop<K>(keys: seq<K>, n: nat, k: K, i: nat)
    requires k in keys && k !in KeysOf(MostCommon(Tally(keys), n)) && i < |MostCommon(Tally(keys), n)|
    ensures Occurrences(keys, k) < MostCommon(Tally(keys), n)[i].count
      || (Occurrences(keys, k) == MostCommon(Tally(keys), n)[i].count
          && IndexOf(keys, MostCommon(Tally(keys), n)[i].key) < IndexOf(keys, k))
  {
    var items := Tally(keys);
    var r := MostCommon(items, n);
    TallyKeys(keys);
    TallyCounts(keys);
    TallyDistinct(keys);
    MostCommonSpec(items, n);
    var m := IndexOf(KeysOf(items), k);
    var e := items[m];
    assert e.key == k;
    assert e !in r by {
      forall j | 0 <= j < |r| ensures r[j] != e {
        assert KeysOf(r)[j] != k;
      }
    }
    assert r[i] in multiset(items);
    TallyRanked(keys, r[i], e);
  }
}
