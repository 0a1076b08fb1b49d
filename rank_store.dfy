/**
 * The persisted `storedTabs` object (URL -> rank) and the transformations the
 * background worker and the options page apply to it.
 *
 * A JavaScript object is modelled with its own keys in insertion order (what
 * `Object.keys` returns for non-numeric keys) and its values. The order of the
 * keys matters: `Array.prototype.sort` is stable, so keys of equal rank keep
 * their insertion order.
 */
module RankStore {
  import opened Collections

  /**
   * The object `{ k: rank }`. The store is generic in its key type `K`; the
   * extension stores URLs.
   */
  datatype Store<K(==,!new)> = Store(keys: seq<K>, rank: map<K, int>) {
    /** Every key occurs once, and the key list and the value map agree. */
    ghost predicate Valid() {
      Distinct(keys) && forall u :: u in rank <==> u in keys
    }
  }

  /** Every element of `s` has a rank. */
  ghost predicate Ranked<K(!new)>(s: seq<K>, rank: map<K, int>) {
    forall u :: u in s ==> u in rank
  }

  /** The elements of `s` appear in non-decreasing rank. */
  ghost predicate SortedBy<K(!new)>(s: seq<K>, rank: map<K, int>)
    requires Ranked(s, rank)
  {
    forall i, j :: 0 <= i < j < |s| ==> rank[s[i]] <= rank[s[j]]
  }

  /** The key at position i has rank i + 1: the shape every renumbering writes. */
  ghost predicate InRankOrder<K(!new)>(s: Store<K>) {
    s.Valid() && forall i :: 0 <= i < |s.keys| ==> s.rank[s.keys[i]] == i + 1
  }

  /** The ranks are exactly 1..N, each used once, where N is the number of URLs. */
  ghost predicate DenseRanks<K(!new)>(s: Store<K>) {
    && (forall k :: k in s.rank.Values <==> 1 <= k <= |s.keys|)
    && forall u, v :: u in s.rank && v in s.rank && s.rank[u] == s.rank[v] ==> u == v
  }

  lemma InRankOrderIsDense<K(!new)>(s: Store<K>)
    requires InRankOrder(s)
    ensures DenseRanks(s)
  {
    forall v | v in s.rank.Values ensures 1 <= v <= |s.keys| {
      var u :| u in s.rank && s.rank[u] == v;
      var i :| 0 <= i < |s.keys| && s.keys[i] == u;
    }
    forall k | 1 <= k <= |s.keys| ensures k in s.rank.Values {
      assert s.rank[s.keys[k - 1]] == k;
    }
    forall u, v | u in s.rank && v in s.rank && s.rank[u] == s.rank[v] ensures u == v {
      var i :| 0 <= i < |s.keys| && s.keys[i] == u;
      var j :| 0 <= j < |s.keys| && s.keys[j] == v;
    }
  }

  /** `delete storedTabs[u]` */
  function Delete<K(==,!new)>(s: Store<K>, u: K): (r: Store<K>)
    requires s.Valid()
    ensures r.Valid()
    ensures forall v :: v in r.rank <==> v in s.rank && v != u
    ensures forall v :: v in r.rank ==> r.rank[v] == s.rank[v]
    ensures u !in s.rank ==> r == s
  {
    ExceptKeepsDistinct(s.keys, {u});
    if u in s.rank then Store(Except(s.keys, {u}), s.rank - {u})
    else
      ExceptNothing(s.keys, {u});
      assert s.rank - {u} == s.rank;
      Store(Except(s.keys, {u}), s.rank - {u})
  }

  /**
   * Deleting a URL from a densely ranked map keeps the ranks dense exactly when
   * the URL held the last rank: any other deletion leaves a gap.
   */
  lemma DeleteKeepsDenseOnlyForLast<K(!new)>(s: Store<K>, u: K)
    requires s.Valid() && DenseRanks(s) && u in s.rank
    ensures DenseRanks(Delete(s, u)) <==> s.rank[u] == |s.keys|
  {
    var d := Delete(s, u);
    var n := |s.keys|;
    ExceptOneLength(s.keys, u);
    assert |d.keys| == n - 1;
    if s.rank[u] == n {
      forall k | k in d.rank.Values ensures 1 <= k <= n - 1 {
        var v :| v in d.rank && d.rank[v] == k;
        assert v != u && s.rank[v] == k;
        assert k in s.rank.Values;
      }
      forall k | 1 <= k <= n - 1 ensures k in d.rank.Values {
        assert k in s.rank.Values;
        var v :| v in s.rank && s.rank[v] == k;
        assert v != u && d.rank[v] == k;
      }
    } else {
      assert n in s.rank.Values;
      var v :| v in s.rank && s.rank[v] == n;
      assert v in d.rank && d.rank[v] == n;
      assert n in d.rank.Values;
    }
  }

  /** `orders.length ? Math.max(...orders) : 0` over the values of the keys `keys`. */
  function MaxRank<K(==,!new)>(keys: seq<K>, rank: map<K, int>): (m: int)
    requires Ranked(keys, rank)
    ensures forall u :: u in keys ==> rank[u] <= m
    ensures keys == [] ==> m == 0
    ensures keys != [] ==> exists u :: u in keys && rank[u] == m
  {
    if keys == [] then 0
    else if |keys| == 1 then rank[keys[0]]
    else
      var init, last := keys[..|keys| - 1], keys[|keys| - 1];
      assert keys == init + [last];
      var m := MaxRank(init, rank);
      if rank[last] > m then rank[last] else m
  }

  /** `storedTabs[u] = maxOrder + 1` for a URL that is not yet stored: it goes last, after every rank. */
  function Appended<K(==,!new)>(s: Store<K>, u: K): (r: Store<K>)
    requires s.Valid() && u !in s.rank
    ensures r.Valid() && r.keys == s.keys + [u]
    ensures forall v :: v in r.rank <==> v in s.rank || v == u
    ensures forall v :: v in s.rank ==> r.rank[v] == s.rank[v] < r.rank[u]
    ensures s.keys == [] ==> r.rank[u] == 1
    ensures s.keys != [] ==> exists v :: v in s.rank && r.rank[u] == s.rank[v] + 1
  {
    var r := Store(s.keys + [u], s.rank[u := MaxRank(s.keys, s.rank) + 1]);
    DistinctConcat(s.keys, [u]);
    r
  }

  /** On a densely ranked map the largest rank is the number of URLs. */
  lemma MaxRankOfDense<K(!new)>(s: Store<K>)
    requires s.Valid() && DenseRanks(s)
    ensures MaxRank(s.keys, s.rank) == |s.keys|
  {
    var n := |s.keys|;
    var m := MaxRank(s.keys, s.rank);
    if n > 0 {
      assert n in s.rank.Values;
      var w :| w in s.rank && s.rank[w] == n;
      assert w in s.keys;
      var x :| x in s.keys && s.rank[x] == m;
      assert s.rank[x] in s.rank.Values;
    }
  }

  /** Pinning a new URL keeps ranks 1..N dense: it gets rank N + 1. */
  lemma AppendedKeepsDense<K(!new)>(s: Store<K>, u: K)
    requires s.Valid() && DenseRanks(s) && u !in s.rank
    ensures DenseRanks(Appended(s, u))
  {
    var a := Appended(s, u);
    var n := |s.keys|;
    MaxRankOfDense(s);
    assert a.rank == s.rank[u := n + 1];
    forall k | k in a.rank.Values ensures 1 <= k <= n + 1 {
      var v :| v in a.rank && a.rank[v] == k;
      if v != u {
        assert s.rank[v] in s.rank.Values;
      }
    }
    forall k | 1 <= k <= n + 1 ensures k in a.rank.Values {
      if k <= n {
        assert k in s.rank.Values;
        var v :| v in s.rank && s.rank[v] == k;
        assert a.rank[v] == k;
      } else {
        assert a.rank[u] == k;
      }
    }
    forall v, w | v in a.rank && w in a.rank && a.rank[v] == a.rank[w] ensures v == w {
      if v != u {
        assert s.rank[v] in s.rank.Values;
      }
      if w != u {
        assert s.rank[w] in s.rank.Values;
      }
    }
  }

  /** Deleting a URL just appended gives back the map it was appended to: unpinning undoes pinning. */
  lemma DeleteUndoesAppend<K(!new)>(s: Store<K>, u: K)
    requires s.Valid() && u !in s.rank
    ensures Delete(Appended(s, u), u) == s
  {
    var a := Appended(s, u);
    assert a.rank == s.rank[u := MaxRank(s.keys, s.rank) + 1];
    assert a.rank - {u} == s.rank;
    ExceptLastOnly(s.keys, u);
    assert Delete(a, u) == Store(Except(s.keys + [u], {u}), a.rank - {u});
  }

  /** Inserts `u` after every element of `sorted` whose rank is at most u's: one step of a stable sort. */
  function Insert<K(==,!new)>(u: K, sorted: seq<K>, rank: map<K, int>): (r: seq<K>)
    requires u in rank && Ranked(sorted, rank)
    ensures |r| == |sorted| + 1
    ensures forall v :: v in r <==> v == u || v in sorted
  {
    if sorted == [] then [u]
    else if rank[u] < rank[sorted[0]] then [u] + sorted
    else
      assert sorted == [sorted[0]] + sorted[1..];
      [sorted[0]] + Insert(u, sorted[1..], rank)
  }

  lemma {:induction false} InsertKeepsSorted<K(!new)>(u: K, sorted: seq<K>, rank: map<K, int>)
    requires u in rank && Ranked(sorted, rank) && SortedBy(sorted, rank)
    ensures Ranked(Insert(u, sorted, rank), rank) && SortedBy(Insert(u, sorted, rank), rank)
  {
    var r := Insert(u, sorted, rank);
    if sorted != [] && rank[sorted[0]] <= rank[u] {
      var head, tail := sorted[0], sorted[1..];
      assert sorted == [head] + tail;
      InsertKeepsSorted(u, tail, rank);
      var t := Insert(u, tail, rank);
      assert r == [head] + t;
      forall i, j | 0 <= i < j < |r| ensures rank[r[i]] <= rank[r[j]] {
        if i == 0 {
          assert r[j] == t[j - 1] && r[j] in t;
        } else {
          assert r[i] == t[i - 1] && r[j] == t[j - 1];
        }
      }
    }
  }

  lemma {:induction false} InsertKeepsDistinct<K(!new)>(u: K, sorted: seq<K>, rank: map<K, int>)
    requires u in rank && Ranked(sorted, rank)
    ensures Distinct(sorted) && u !in sorted ==> Distinct(Insert(u, sorted, rank))
  {
    if !(Distinct(sorted) && u !in sorted) {
    } else if sorted != [] && rank[sorted[0]] <= rank[u] {
      var head, tail := sorted[0], sorted[1..];
      assert sorted == [head] + tail;
      InsertKeepsDistinct(u, tail, rank);
      DistinctConcat([head], Insert(u, tail, rank));
    } else if sorted != [] {
      DistinctConcat([u], sorted);
    }
  }

  /** `keys.sort((a, b) => rank[a] - rank[b])`: a stable sort by ascending rank. */
  function SortByRank<K(==,!new)>(keys: seq<K>, rank: map<K, int>): (r: seq<K>)
    requires Ranked(keys, rank)
    ensures |r| == |keys|
    ensures forall v :: v in r <==> v in keys
    ensures Ranked(r, rank) && SortedBy(r, rank)
  {
    if keys == [] then []
    else
      var init, last := keys[..|keys| - 1], keys[|keys| - 1];
      assert keys == init + [last];
      var sortedInit := SortByRank(init, rank);
      InsertKeepsSorted(last, sortedInit, rank);
      Insert(last, sortedInit, rank)
  }

  /** `u` occurs somewhere before `v` in `s`. */
  ghost predicate Before<K>(s: seq<K>, u: K, v: K) {
    exists i, j :: 0 <= i < j < |s| && s[i] == u && s[j] == v
  }

  lemma {:induction false} InsertKeepsBefore<K(!new)>(x: K, sorted: seq<K>, rank: map<K, int>, u: K, v: K)
    requires x in rank && Ranked(sorted, rank) && Before(sorted, u, v)
    ensures Before(Insert(x, sorted, rank), u, v)
  {
    var r := Insert(x, sorted, rank);
    var i, j :| 0 <= i < j < |sorted| && sorted[i] == u && sorted[j] == v;
    var tail := sorted[1..];
    assert sorted == [sorted[0]] + tail;
    if rank[x] < rank[sorted[0]] {
      assert r[i + 1] == u && r[j + 1] == v;
    } else {
      var t := Insert(x, tail, rank);
      assert r == [sorted[0]] + t;
      if i == 0 {
        assert tail[j - 1] == v && v in tail && v in t;
        var k :| 0 <= k < |t| && t[k] == v;
        assert r[0] == u && r[k + 1] == v;
      } else {
        assert tail[i - 1] == u && tail[j - 1] == v;
        InsertKeepsBefore(x, tail, rank, u, v);
        var a, b :| 0 <= a < b < |t| && t[a] == u && t[b] == v;
        assert r[a + 1] == u && r[b + 1] == v;
      }
    }
  }

  lemma {:induction false} InsertAfterNoLarger<K(!new)>(x: K, sorted: seq<K>, rank: map<K, int>, u: K)
    requires x in rank && Ranked(sorted, rank) && SortedBy(sorted, rank)
    requires u in sorted && rank[u] <= rank[x]
    ensures Before(Insert(x, sorted, rank), u, x)
  {
    var r := Insert(x, sorted, rank);
    var k :| 0 <= k < |sorted| && sorted[k] == u;
    if k > 0 {
      assert rank[sorted[0]] <= rank[sorted[k]];
    }
    var tail := sorted[1..];
    assert sorted == [sorted[0]] + tail;
    var t := Insert(x, tail, rank);
    assert r == [sorted[0]] + t;
    if k == 0 {
      assert x in t;
      var m :| 0 <= m < |t| && t[m] == x;
      assert r[0] == u && r[m + 1] == x;
    } else {
      assert tail[k - 1] == u;
      forall a, b | 0 <= a < b < |tail| ensures rank[tail[a]] <= rank[tail[b]] {
        assert tail[a] == sorted[a + 1] && tail[b] == sorted[b + 1];
      }
      InsertAfterNoLarger(x, tail, rank, u);
      var a, b :| 0 <= a < b < |t| && t[a] == u && t[b] == x;
      assert r[a + 1] == u && r[b + 1] == x;
    }
  }

  /**
   * The sort is stable: a key listed before another key of no smaller rank is
   * still listed before it, so keys of equal rank keep their insertion order.
   */
  lemma {:induction false} SortByRankIsStable<K(!new)>(keys: seq<K>, rank: map<K, int>, u: K, v: K)
    requires Ranked(keys, rank) && u in rank && v in rank
    requires Before(keys, u, v) && rank[u] <= rank[v]
    ensures Before(SortByRank(keys, rank), u, v)
  {
    var init, last := keys[..|keys| - 1], keys[|keys| - 1];
    assert keys == init + [last];
    var i, j :| 0 <= i < j < |keys| && keys[i] == u && keys[j] == v;
    var sortedInit := SortByRank(init, rank);
    assert init[i] == u;
    if j == |keys| - 1 {
      assert u in sortedInit;
      InsertAfterNoLarger(last, sortedInit, rank, u);
    } else {
      assert init[j] == v;
      SortByRankIsStable(init, rank, u, v);
      InsertKeepsBefore(last, sortedInit, rank, u, v);
    }
  }

  lemma {:induction false} InsertIsPermutation<K(!new)>(u: K, sorted: seq<K>, rank: map<K, int>)
    requires u in rank && Ranked(sorted, rank)
    ensures multiset(Insert(u, sorted, rank)) == multiset(sorted) + multiset{u}
  {
    if sorted != [] && rank[sorted[0]] <= rank[u] {
      assert sorted == [sorted[0]] + sorted[1..];
      InsertIsPermutation(u, sorted[1..], rank);
    }
  }

  /** The sorted list is a permutation of the keys, repeats included. */
  lemma {:induction false} SortByRankIsPermutation<K(!new)>(keys: seq<K>, rank: map<K, int>)
    requires Ranked(keys, rank)
    ensures multiset(SortByRank(keys, rank)) == multiset(keys)
  {
    if keys != [] {
      var init, last := keys[..|keys| - 1], keys[|keys| - 1];
      assert keys == init + [last];
      SortByRankIsPermutation(init, rank);
      InsertIsPermutation(last, SortByRank(init, rank), rank);
    }
  }

  lemma {:induction false} SortByRankKeepsDistinct<K(!new)>(keys: seq<K>, rank: map<K, int>)
    requires Ranked(keys, rank) && Distinct(keys)
    ensures Distinct(SortByRank(keys, rank))
  {
    if keys != [] {
      var init, last := keys[..|keys| - 1], keys[|keys| - 1];
      assert keys == init + [last];
      DistinctPrefix(keys, |keys| - 1);
      SortByRankKeepsDistinct(init, rank);
      InsertKeepsDistinct(last, SortByRank(init, rank), rank);
    }
  }

  lemma {:induction false} InsertAfterAll<K(!new)>(u: K, sorted: seq<K>, rank: map<K, int>)
    requires u in rank && Ranked(sorted, rank)
    requires forall v :: v in sorted ==> rank[v] <= rank[u]
    ensures Insert(u, sorted, rank) == sorted + [u]
  {
    if sorted != [] {
      assert sorted == [sorted[0]] + sorted[1..];
      InsertAfterAll(u, sorted[1..], rank);
    }
  }

  /** Sorting a sequence that is already in rank order changes nothing. */
  lemma {:induction false} SortOfSortedIsIdentity<K(!new)>(keys: seq<K>, rank: map<K, int>)
    requires Ranked(keys, rank) && SortedBy(keys, rank)
    ensures SortByRank(keys, rank) == keys
  {
    if keys != [] {
      var init, last := keys[..|keys| - 1], keys[|keys| - 1];
      assert keys == init + [last];
      SortOfSortedIsIdentity(init, rank);
      InsertAfterAll(last, init, rank);
    }
  }

  /** Filtering a sequence keeps it in rank order. */
  lemma {:induction false} ExceptKeepsSorted<K(!new)>(s: seq<K>, excluded: set<K>, rank: map<K, int>)
    requires Ranked(s, rank) && SortedBy(s, rank)
    ensures Ranked(Except(s, excluded), rank) && SortedBy(Except(s, excluded), rank)
  {
    if s != [] {
      var init, last := s[..|s| - 1], s[|s| - 1];
      assert s == init + [last];
      ExceptKeepsSorted(init, excluded, rank);
      var p := Except(init, excluded);
      if last !in excluded {
        forall v | v in p ensures rank[v] <= rank[last] {
          var k :| 0 <= k < |init| && init[k] == v;
          assert s[k] == v;
        }
        SortedSnoc(p, last, rank);
      }
    }
  }

  /** Appending an element of rank at least every rank of a sorted sequence keeps it sorted. */
  lemma SortedSnoc<K(!new)>(p: seq<K>, x: K, rank: map<K, int>)
    requires Ranked(p, rank) && SortedBy(p, rank) && x in rank
    requires forall v :: v in p ==> rank[v] <= rank[x]
    ensures Ranked(p + [x], rank) && SortedBy(p + [x], rank)
  {
    var r := p + [x];
    forall i, j | 0 <= i < j < |r| ensures rank[r[i]] <= rank[r[j]] {
      assert r[i] == p[i] && p[i] in p;
      if j < |p| {
        assert r[j] == p[j];
      }
    }
  }

  /** In a rank-sorted sequence, an element of strictly smaller rank stands strictly earlier. */
  lemma SortedIndexOrder<K(!new)>(s: seq<K>, rank: map<K, int>, i: nat, j: nat)
    requires Ranked(s, rank) && SortedBy(s, rank)
    requires i < |s| && j < |s| && rank[s[i]] < rank[s[j]]
    ensures i < j
  {
  }

  /** The ranks `{ urls[i]: i + 1 }` (a later duplicate overwrites an earlier one). */
  function NumberMap<K(==,!new)>(urls: seq<K>): (m: map<K, int>)
    ensures forall u :: u in m <==> u in urls
  {
    if urls == [] then map[]
    else
      var init, last := urls[..|urls| - 1], urls[|urls| - 1];
      assert urls == init + [last];
      NumberMap(init)[last := |urls|]
  }

  /** With distinct URLs, the URL at index i gets rank i + 1. */
  lemma {:induction false} NumberMapAt<K(!new)>(urls: seq<K>)
    requires Distinct(urls)
    ensures forall i :: 0 <= i < |urls| ==> NumberMap(urls)[urls[i]] == i + 1
  {
    if urls != [] {
      var init, last := urls[..|urls| - 1], urls[|urls| - 1];
      assert urls == init + [last];
      DistinctPrefix(urls, |urls| - 1);
      NumberMapAt(init);
      forall i | 0 <= i < |urls| - 1 ensures NumberMap(urls)[urls[i]] == i + 1 {
        assert urls[i] == init[i] && urls[i] != last;
      }
    }
  }

  lemma NumberMapSnoc<K(!new)>(s: seq<K>, x: K)
    ensures NumberMap(s + [x]) == NumberMap(s)[x := |s| + 1]
  {
    var t := s + [x];
    assert t[..|t| - 1] == s && t[|t| - 1] == x;
  }

  /** The object built by `urls.forEach((u, idx) => { obj[u] = idx + 1; })`. */
  function Numbered<K(==,!new)>(urls: seq<K>): (r: Store<K>)
    requires Distinct(urls)
    ensures InRankOrder(r) && r.keys == urls
  {
    NumberMapAt(urls);
    Store(urls, NumberMap(urls))
  }

  /** The `forEach` loop that numbers a list of distinct URLs from 1. */
  method NumberInOrder<K(==,!new)>(urls: seq<K>) returns (r: Store<K>)
    requires Distinct(urls)
    ensures r == Numbered(urls)
  {
    var keys: seq<K> := [];
    var rank: map<K, int> := map[];
    for idx := 0 to |urls|
      invariant keys == urls[..idx]
      invariant rank == NumberMap(keys)
    {
      assert urls[..idx + 1] == keys + [urls[idx]];
      NumberMapSnoc(keys, urls[idx]);
      // A key that is not yet present goes to the end of the object's key order.
      keys := keys + [urls[idx]];
      rank := rank[urls[idx] := idx + 1];
    }
    assert urls[..|urls|] == urls;
    r := Store(keys, rank);
  }

  /** The URL at index i of a numbered list has rank i + 1. */
  lemma NumberedRankAt<K(!new)>(urls: seq<K>, i: nat)
    requires Distinct(urls) && i < |urls|
    ensures urls[i] in Numbered(urls).rank && Numbered(urls).rank[urls[i]] == i + 1
  {
    NumberMapAt(urls);
  }

  /** Numbering `front + back` ranks the element at index i of `back` after all of `front`. */
  lemma NumberedRankAfter<K(!new)>(front: seq<K>, back: seq<K>, i: nat)
    requires Distinct(front + back) && i < |back|
    ensures back[i] in Numbered(front + back).rank && Numbered(front + back).rank[back[i]] == |front| + i + 1
  {
    NumberedRankAt(front + back, |front| + i);
    assert (front + back)[|front| + i] == back[i];
  }

  /** Numbering `front + back` ranks the element at index i of `front` i + 1. */
  lemma NumberedRankBefore<K(!new)>(front: seq<K>, back: seq<K>, i: nat)
    requires Distinct(front + back) && i < |front|
    ensures front[i] in Numbered(front + back).rank && Numbered(front + back).rank[front[i]] == i + 1
  {
    NumberedRankAt(front + back, i);
    assert (front + back)[i] == front[i];
  }

  /** Sort the keys by rank, then number them 1..N. */
  function Renormalized<K(==,!new)>(s: Store<K>): (r: Store<K>)
    requires s.Valid()
    ensures InRankOrder(r)
    ensures forall u :: u in r.rank <==> u in s.rank
  {
    SortByRankKeepsDistinct(s.keys, s.rank);
    Numbered(SortByRank(s.keys, s.rank))
  }

  /** `Object.keys(s).sort(byRank)` followed by the numbering `forEach`. */
  method Renumber<K(==,!new)>(s: Store<K>) returns (r: Store<K>)
    requires s.Valid()
    ensures r == Renormalized(s)
  {
    var sortedUrls := SortByRank(s.keys, s.rank);
    SortByRankKeepsDistinct(s.keys, s.rank);
    r := NumberInOrder(sortedUrls);
  }

  /** Numbering a rank-sorted sequence gives smaller numbers to smaller ranks. */
  lemma NumberedKeepsOrder<K(!new)>(sorted: seq<K>, rank: map<K, int>)
    requires Distinct(sorted) && Ranked(sorted, rank) && SortedBy(sorted, rank)
    ensures forall u, v :: u in sorted && v in sorted && rank[u] < rank[v] ==>
              NumberMap(sorted)[u] < NumberMap(sorted)[v]
  {
    var m := NumberMap(sorted);
    NumberMapAt(sorted);
    forall u, v | u in sorted && v in sorted && rank[u] < rank[v] ensures m[u] < m[v] {
      var i :| 0 <= i < |sorted| && sorted[i] == u;
      var j :| 0 <= j < |sorted| && sorted[j] == v;
      assert m[u] == i + 1 && m[v] == j + 1;
    }
  }

  /** Renumbering keeps the relative order of the URLs. */
  lemma RenormalizedKeepsOrder<K(!new)>(s: Store<K>)
    requires s.Valid()
    ensures forall u, v :: u in s.rank && v in s.rank && s.rank[u] < s.rank[v] ==>
              Renormalized(s).rank[u] < Renormalized(s).rank[v]
  {
    assert Ranked(s.keys, s.rank);
    SortByRankKeepsDistinct(s.keys, s.rank);
    NumberedKeepsOrder(SortByRank(s.keys, s.rank), s.rank);
  }

  /** A store whose ranks are already 1..N in key order is what numbering its keys builds. */
  lemma InRankOrderIsNumbered<K(!new)>(s: Store<K>)
    requires InRankOrder(s)
    ensures Numbered(s.keys) == s
  {
    var m := NumberMap(s.keys);
    NumberMapAt(s.keys);
    forall u | u in s.rank ensures u in m && m[u] == s.rank[u] {
      var i :| 0 <= i < |s.keys| && s.keys[i] == u;
    }
    assert m == s.rank;
  }

  /** A store whose ranks are already 1..N in key order is left as it is. */
  lemma RenormalizedIdempotent<K(!new)>(s: Store<K>)
    requires InRankOrder(s)
    ensures Renormalized(s) == s
  {
    assert Ranked(s.keys, s.rank);
    SortOfSortedIsIdentity(s.keys, s.rank);
    InRankOrderIsNumbered(s);
  }

  /** `delete storedTabs[u]` followed by the renumbering (options/main.js:74-83, background/worker.js:379-387). */
  function DeleteAndRenumber<K(==,!new)>(s: Store<K>, u: K): (r: Store<K>)
    requires s.Valid()
    ensures InRankOrder(r)
    ensures forall v :: v in r.rank <==> v in s.rank && v != u
  {
    Renormalized(Delete(s, u))
  }

  /**
   * After removing `u`, the remaining URLs are ranked exactly 1..N and keep
   * their relative order.
   */
  lemma DeleteAndRenumberDenseAndOrdered<K(!new)>(s: Store<K>, u: K)
    requires s.Valid()
    ensures u !in DeleteAndRenumber(s, u).rank
    ensures DenseRanks(DeleteAndRenumber(s, u))
    ensures forall v, w :: v in DeleteAndRenumber(s, u).rank && w in DeleteAndRenumber(s, u).rank && s.rank[v] < s.rank[w] ==>
              DeleteAndRenumber(s, u).rank[v] < DeleteAndRenumber(s, u).rank[w]
  {
    InRankOrderIsDense(DeleteAndRenumber(s, u));
    RenormalizedKeepsOrder(Delete(s, u));
  }

  /**
   * Removing a URL that is not stored only renumbers, and removing the same URL
   * twice gives what removing it once gives.
   */
  lemma DeleteAndRenumberIdempotent<K(!new)>(s: Store<K>, u: K)
    requires s.Valid()
    ensures u !in s.rank ==> DeleteAndRenumber(s, u) == Renormalized(s)
    ensures DeleteAndRenumber(DeleteAndRenumber(s, u), u) == DeleteAndRenumber(s, u)
  {
    var once := DeleteAndRenumber(s, u);
    assert Delete(once, u) == once;
    RenormalizedIdempotent(once);
  }
}
