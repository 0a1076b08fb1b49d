/**
 * The `tabs.onMoved` handler (background/worker.js:320-357): after a pinned tab
 * is dragged, the stored ranks are rewritten to follow the window's pinned row.
 */
module Reorder {
  import opened Collections
  import opened Urls
  import opened Browser
  import opened RankStore

  /** `t.url` of every tab, in order. */
  function TabUrls(tabs: seq<Tab>): seq<Url>
  {
    seq(|tabs|, i requires 0 <= i < |tabs| => tabs[i].url)
  }

  lemma TabUrlsPrefix(tabs: seq<Tab>, k: int)
    requires 0 <= k < |tabs|
    ensures TabUrls(tabs)[..k + 1] == TabUrls(tabs)[..k] + [tabs[k].url]
  {
  }

  lemma TabUrlsWhole(tabs: seq<Tab>)
    ensures TabUrls(tabs)[..|tabs|] == TabUrls(tabs)
  {
  }

  /** The set of URLs of a list: what the `seen` set holds once the row has been walked. */
  function Elements<K(==,!new)>(urls: seq<K>): set<K> {
    set u | u in urls
  }

  /**
   * `[...windowUrls, ...remaining]`: the window's pinned URLs (`rowUrls`, in
   * tab index order) each once, then the stored URLs not in the window, in
   * ascending stored rank.
   */
  function MergedUrls<K(==,!new)>(rowUrls: seq<K>, stored: Store<K>): (r: seq<K>)
    requires stored.Valid()
    ensures Distinct(r)
  {
    var sorted := SortByRank(stored.keys, stored.rank);
    SortByRankKeepsDistinct(stored.keys, stored.rank);
    var remaining := Except(sorted, Elements(rowUrls));
    ExceptKeepsDistinct(sorted, Elements(rowUrls));
    DistinctConcat(FirstOccurrences(rowUrls), remaining);
    FirstOccurrences(rowUrls) + remaining
  }

  /** The `newstoredTabs` object: the merged list ranked 1..N. */
  function Merged<K(==,!new)>(rowUrls: seq<K>, stored: Store<K>): Store<K>
    requires stored.Valid()
  {
    Numbered(MergedUrls(rowUrls, stored))
  }

  lemma FirstOccurrencesSnoc<T(!new)>(s: seq<T>, x: T)
    ensures FirstOccurrences(s + [x]) == if x in s then FirstOccurrences(s) else FirstOccurrences(s) + [x]
  {
    var t := s + [x];
    assert t[..|t| - 1] == s && t[|t| - 1] == x;
  }

  /**
   * The handler. `movedPinned` is whether the moved tab is pinned, `rowTabs`
   * the window's pinned tabs sorted by index, `stored` the map read from
   * storage; the result is the map written back, if any.
   */
  method SyncDragOrder(movedPinned: bool, rowTabs: seq<Tab>, stored: Store<Url>) returns (write: Option<Store<Url>>)
    requires stored.Valid()
    ensures !movedPinned ==> write == None
    ensures movedPinned ==> write == Some(Merged(TabUrls(rowTabs), stored))
  {
    if !movedPinned {
      return None;
    }
    var storedUrls := SortByRank(stored.keys, stored.rank);
    ghost var rowUrls := TabUrls(rowTabs);
    var windowUrls: seq<Url> := [];
    var seen: set<Url> := {};
    for k := 0 to |rowTabs|
      invariant windowUrls == FirstOccurrences(rowUrls[..k])
      invariant seen == Elements(rowUrls[..k])
    {
      var t := rowTabs[k];
      TabUrlsPrefix(rowTabs, k);
      FirstOccurrencesSnoc(rowUrls[..k], t.url);
      if t.url !in seen {
        seen := seen + {t.url};
        windowUrls := windowUrls + [t.url];
      }
    }
    TabUrlsWhole(rowTabs);
    var remaining := Except(storedUrls, seen);
    assert windowUrls + remaining == MergedUrls(rowUrls, stored);
    var newStored := NumberInOrder(windowUrls + remaining);
    return Some(newStored);
  }

  /** The new ranks are exactly 1..N, and the URLs are those of the window row together with those stored before: none is dropped. */
  lemma MergedIsDenseAndKeepsEveryUrl<K(!new)>(rowUrls: seq<K>, stored: Store<K>)
    requires stored.Valid()
    ensures DenseRanks(Merged(rowUrls, stored))
    ensures forall u :: u in Merged(rowUrls, stored).rank <==> u in rowUrls || u in stored.rank
  {
    InRankOrderIsDense(Merged(rowUrls, stored));
    var sorted := SortByRank(stored.keys, stored.rank);
    assert MergedUrls(rowUrls, stored) == FirstOccurrences(rowUrls) + Except(sorted, Elements(rowUrls));
  }

  /** A URL's new rank is one more than its position in the merged list. */
  lemma MergedRankIsPosition<K(!new)>(rowUrls: seq<K>, stored: Store<K>)
    requires stored.Valid()
    ensures forall i :: 0 <= i < |MergedUrls(rowUrls, stored)| ==>
              Merged(rowUrls, stored).rank[MergedUrls(rowUrls, stored)[i]] == i + 1
  {
    NumberMapAt(MergedUrls(rowUrls, stored));
  }

  /** Window URLs are ranked in the order in which they first occur in the row. */
  lemma MergedKeepsRowOrder<K(!new)>(rowUrls: seq<K>, stored: Store<K>)
    requires stored.Valid()
    ensures forall u, v :: u in rowUrls && v in rowUrls && FirstIndex(rowUrls, u) < FirstIndex(rowUrls, v) ==>
              Merged(rowUrls, stored).rank[u] < Merged(rowUrls, stored).rank[v]
  {
    forall u, v | u in rowUrls && v in rowUrls && FirstIndex(rowUrls, u) < FirstIndex(rowUrls, v)
      ensures Merged(rowUrls, stored).rank[u] < Merged(rowUrls, stored).rank[v]
    {
      var fo := FirstOccurrences(rowUrls);
      var i :| 0 <= i < |fo| && fo[i] == u;
      var j :| 0 <= j < |fo| && fo[j] == v;
      FirstOccurrencesIndexOrder(rowUrls, i, j);
      MergedRankOfRow(rowUrls, stored, i);
      MergedRankOfRow(rowUrls, stored, j);
    }
  }

  /** Every window URL is ranked before every stored URL that is not in the window. */
  lemma MergedPutsRowFirst<K(!new)>(rowUrls: seq<K>, stored: Store<K>)
    requires stored.Valid()
    ensures forall u, v :: u in rowUrls && v in stored.rank && v !in rowUrls ==>
              Merged(rowUrls, stored).rank[u] < Merged(rowUrls, stored).rank[v]
  {
    forall u, v | u in rowUrls && v in stored.rank && v !in rowUrls
      ensures Merged(rowUrls, stored).rank[u] < Merged(rowUrls, stored).rank[v]
    {
      var fo := FirstOccurrences(rowUrls);
      var rem := Except(SortByRank(stored.keys, stored.rank), Elements(rowUrls));
      var i :| 0 <= i < |fo| && fo[i] == u;
      var j :| 0 <= j < |rem| && rem[j] == v;
      MergedRankOfRow(rowUrls, stored, i);
      MergedRankOfRest(rowUrls, stored, j);
    }
  }

  /** The window URL at index i of `windowUrls` is ranked i + 1. */
  lemma MergedRankOfRow<K(!new)>(rowUrls: seq<K>, stored: Store<K>, i: nat)
    requires stored.Valid() && i < |FirstOccurrences(rowUrls)|
    ensures Merged(rowUrls, stored).rank[FirstOccurrences(rowUrls)[i]] == i + 1
  {
    var fo := FirstOccurrences(rowUrls);
    var rem := Except(SortByRank(stored.keys, stored.rank), Elements(rowUrls));
    assert MergedUrls(rowUrls, stored) == fo + rem;
    NumberedRankBefore(fo, rem, i);
  }

  /** Stored URLs that are not in the window keep their prior relative order. */
  lemma MergedKeepsRestOrder<K(!new)>(rowUrls: seq<K>, stored: Store<K>)
    requires stored.Valid()
    ensures forall v, w :: v in stored.rank && w in stored.rank && v !in rowUrls && w !in rowUrls && stored.rank[v] < stored.rank[w] ==>
              Merged(rowUrls, stored).rank[v] < Merged(rowUrls, stored).rank[w]
  {
    forall v, w | v in stored.rank && w in stored.rank && v !in rowUrls && w !in rowUrls && stored.rank[v] < stored.rank[w]
      ensures Merged(rowUrls, stored).rank[v] < Merged(rowUrls, stored).rank[w]
    {
      MergedKeepsRestPair(rowUrls, stored, v, w);
    }
  }

  lemma MergedKeepsRestPair<K(!new)>(rowUrls: seq<K>, stored: Store<K>, v: K, w: K)
    requires stored.Valid()
    requires v in stored.rank && w in stored.rank && v !in rowUrls && w !in rowUrls && stored.rank[v] < stored.rank[w]
    ensures Merged(rowUrls, stored).rank[v] < Merged(rowUrls, stored).rank[w]
  {
    var fo := FirstOccurrences(rowUrls);
    var sorted := SortByRank(stored.keys, stored.rank);
    var rem := Except(sorted, Elements(rowUrls));
    assert v in rem && w in rem;
    var i :| 0 <= i < |rem| && rem[i] == v;
    var j :| 0 <= j < |rem| && rem[j] == w;
    assert Ranked(stored.keys, stored.rank);
    ExceptKeepsSorted(sorted, Elements(rowUrls), stored.rank);
    SortedIndexOrder(rem, stored.rank, i, j);
    MergedRankOfRest(rowUrls, stored, i);
    MergedRankOfRest(rowUrls, stored, j);
  }

  /** The stored URL at index i of `remaining` is ranked |windowUrls| + i + 1. */
  lemma MergedRankOfRest<K(!new)>(rowUrls: seq<K>, stored: Store<K>, i: nat)
    requires stored.Valid()
    requires i < |Except(SortByRank(stored.keys, stored.rank), Elements(rowUrls))|
    ensures var rem := Except(SortByRank(stored.keys, stored.rank), Elements(rowUrls));
      Merged(rowUrls, stored).rank[rem[i]] == |FirstOccurrences(rowUrls)| + i + 1
  {
    var fo := FirstOccurrences(rowUrls);
    var rem := Except(SortByRank(stored.keys, stored.rank), Elements(rowUrls));
    assert MergedUrls(rowUrls, stored) == fo + rem;
    NumberedRankAfter(fo, rem, i);
  }
}
