/**
 * `applyStoredPinnedToWindow` (background/worker.js:60-138) as a plan: the
 * pinned tabs it creates, in order, and the pre-existing pinned tabs it closes
 * or unpins. The browser calls themselves are not modelled; the worker runs the
 * plan and records the ids the browser hands back.
 */
module Projection {
  import opened Collections
  import opened Urls
  import opened Browser
  import opened RankStore

  /** The `chrome.tabs.create` calls in issue order, then the ids given to `tabs.remove` and to `tabs.update({pinned: false})`. */
  datatype Plan = Plan(creates: seq<CreateRequest>, close: seq<TabId>, unpin: seq<TabId>)

  /** What steps 4 and 5 do with one pre-existing pinned tab. */
  datatype Disposition = Close | Unpin | Leave

  /** `allTabs.filter(t => t.pinned)` */
  function PinnedTabs(tabs: seq<Tab>): (r: seq<Tab>)
    ensures forall t :: t in r <==> t in tabs && t.pinned
  {
    if tabs == [] then []
    else
      var init, last := tabs[..|tabs| - 1], tabs[|tabs| - 1];
      assert tabs == init + [last];
      if last.pinned then PinnedTabs(init) + [last] else PinnedTabs(init)
  }

  /** `tabs.map(t => t.id)` */
  function TabIds(tabs: seq<Tab>): seq<TabId>
  {
    seq(|tabs|, i requires 0 <= i < |tabs| => tabs[i].id)
  }

  /**
   * A pinned tab without a current URL is left alone; one showing a stored URL
   * is a duplicate of a tab the projection creates, and is closed; any other is
   * unpinned. Internal URLs are not treated specially here.
   */
  function Triage(t: Tab, stored: Store<Url>): Disposition {
    var u := CurrentUrl(t);
    if u == "" then Leave
    else if u in stored.rank then Close
    else Unpin
  }

  /** The ids of the tabs of `tabs` with disposition `d`, in order. */
  function IdsWith(tabs: seq<Tab>, stored: Store<Url>, d: Disposition): seq<TabId> {
    if tabs == [] then []
    else
      var init, last := tabs[..|tabs| - 1], tabs[|tabs| - 1];
      assert tabs == init + [last];
      var p := IdsWith(init, stored, d);
      if Triage(last, stored) == d then p + [last.id] else p
  }

  /** The stored URLs that match `/^chrome(|-untrusted|-extension):\/\//i`. */
  function InternalOf(urls: seq<Url>): set<Url> {
    set u | u in urls && IsInternal(u)
  }

  /** The stored URLs in ascending rank, without the internal ones: the URLs the projection opens. */
  function CreatedUrls(stored: Store<Url>): (r: seq<Url>)
    requires stored.Valid()
    ensures forall u :: u in r <==> u in stored.rank && !IsInternal(u)
  {
    var sorted := SortByRank(stored.keys, stored.rank);
    Except(sorted, InternalOf(sorted))
  }

  /** One `{ windowId, url, pinned: true, active: false, index: i }` per URL, at indices 0, 1, 2, … */
  function CreationsFor(window: WindowId, urls: seq<Url>): seq<CreateRequest>
  {
    seq(|urls|, i requires 0 <= i < |urls| => CreateRequest(window, urls[i], true, false, i))
  }

  /** The whole plan of `applyStoredPinnedToWindow(window)` over the tab snapshot `tabs` and the stored map. */
  function ProjectionPlan(window: WindowId, tabs: seq<Tab>, stored: Store<Url>): Plan
    requires stored.Valid()
  {
    var pinned := PinnedTabs(tabs);
    if stored.keys == [] then Plan([], [], TabIds(pinned))
    else Plan(CreationsFor(window, CreatedUrls(stored)), IdsWith(pinned, stored, Close), IdsWith(pinned, stored, Unpin))
  }

  lemma CreationsSnoc(window: WindowId, urls: seq<Url>, u: Url)
    ensures CreationsFor(window, urls + [u]) == CreationsFor(window, urls) + [CreateRequest(window, u, true, false, |urls|)]
  {
    var a, b := CreationsFor(window, urls + [u]), CreationsFor(window, urls) + [CreateRequest(window, u, true, false, |urls|)];
    assert |a| == |b|;
    forall i | 0 <= i < |a| ensures a[i] == b[i] {
      if i < |urls| {
        assert (urls + [u])[i] == urls[i];
      }
    }
  }

  /** `IdsWith` lists the id of every tab with disposition `d`, and no other id. */
  lemma {:induction false} IdsWithMembers(tabs: seq<Tab>, stored: Store<Url>, d: Disposition)
    ensures forall id :: id in IdsWith(tabs, stored, d) ==> exists t :: t in tabs && t.id == id && Triage(t, stored) == d
    ensures forall t :: t in tabs && Triage(t, stored) == d ==> t.id in IdsWith(tabs, stored, d)
  {
    if tabs != [] {
      var init, last := tabs[..|tabs| - 1], tabs[|tabs| - 1];
      assert tabs == init + [last];
      IdsWithMembers(init, stored, d);
    }
  }

  lemma IdsWithSnoc(tabs: seq<Tab>, t: Tab, stored: Store<Url>, d: Disposition)
    ensures IdsWith(tabs + [t], stored, d) == if Triage(t, stored) == d then IdsWith(tabs, stored, d) + [t.id] else IdsWith(tabs, stored, d)
  {
    var s := tabs + [t];
    assert s[..|s| - 1] == tabs && s[|s| - 1] == t;
  }

  /** Step 3: the creation loop, whose `targetIndex` counts only the URLs that are not internal. */
  method PlanCreates(window: WindowId, sortedUrls: seq<Url>) returns (creates: seq<CreateRequest>)
    ensures creates == CreationsFor(window, Except(sortedUrls, InternalOf(sortedUrls)))
  {
    var internal := InternalOf(sortedUrls);
    creates := [];
    var targetIndex := 0;
    for k := 0 to |sortedUrls|
      invariant creates == CreationsFor(window, Except(sortedUrls[..k], internal))
      invariant targetIndex == |creates|
    {
      var url := sortedUrls[k];
      assert sortedUrls[..k + 1] == sortedUrls[..k] + [url];
      ExceptSnoc(sortedUrls[..k], url, internal);
      if IsInternal(url) {
        continue;
      }
      CreationsSnoc(window, Except(sortedUrls[..k], internal), url);
      creates := creates + [CreateRequest(window, url, true, false, targetIndex)];
      targetIndex := targetIndex + 1;
    }
    assert sortedUrls[..|sortedUrls|] == sortedUrls;
  }

  /** Steps 4 and 5: one pass over the pinned tabs filling `toClose` and `toUnpin`. */
  method PlanTriage(restoredPinned: seq<Tab>, stored: Store<Url>, storedUrlSet: set<Url>) returns (toClose: seq<TabId>, toUnpin: seq<TabId>)
    requires forall u :: u in storedUrlSet <==> u in stored.rank
    ensures toClose == IdsWith(restoredPinned, stored, Close)
    ensures toUnpin == IdsWith(restoredPinned, stored, Unpin)
  {
    toClose, toUnpin := [], [];
    for k := 0 to |restoredPinned|
      invariant toClose == IdsWith(restoredPinned[..k], stored, Close)
      invariant toUnpin == IdsWith(restoredPinned[..k], stored, Unpin)
    {
      var tab := restoredPinned[k];
      assert restoredPinned[..k + 1] == restoredPinned[..k] + [tab];
      IdsWithSnoc(restoredPinned[..k], tab, stored, Close);
      IdsWithSnoc(restoredPinned[..k], tab, stored, Unpin);
      var currentUrl := CurrentUrl(tab);
      if currentUrl == "" {
        continue;
      }
      if currentUrl in storedUrlSet {
        toClose := toClose + [tab.id];
      } else {
        toUnpin := toUnpin + [tab.id];
      }
    }
    assert restoredPinned[..|restoredPinned|] == restoredPinned;
  }

  /** Steps 1 to 5 of `applyStoredPinnedToWindow`, up to the browser calls. */
  method PlanProjection(window: WindowId, tabs: seq<Tab>, stored: Store<Url>) returns (plan: Plan)
    requires stored.Valid()
    ensures plan == ProjectionPlan(window, tabs, stored)
  {
    var restoredPinned := PinnedTabs(tabs);
    var sortedUrls := SortByRank(stored.keys, stored.rank);
    if |sortedUrls| == 0 {
      return Plan([], [], TabIds(restoredPinned));
    }
    var creates := PlanCreates(window, sortedUrls);
    var toClose, toUnpin := PlanTriage(restoredPinned, stored, set u | u in sortedUrls);
    plan := Plan(creates, toClose, toUnpin);
  }

  /** With nothing stored, every pinned tab is unpinned and nothing is created or closed. */
  lemma EmptyStoreUnpinsEveryPinnedTab(window: WindowId, tabs: seq<Tab>, stored: Store<Url>)
    requires stored.Valid() && stored.keys == []
    ensures ProjectionPlan(window, tabs, stored).creates == []
    ensures ProjectionPlan(window, tabs, stored).close == []
    ensures forall t :: t in tabs && t.pinned ==> t.id in ProjectionPlan(window, tabs, stored).unpin
    ensures forall id :: id in ProjectionPlan(window, tabs, stored).unpin ==> exists t :: t in tabs && t.pinned && t.id == id
  {
    var pinned := PinnedTabs(tabs);
    var ids := TabIds(pinned);
    forall t | t in tabs && t.pinned ensures t.id in ids {
      var i :| 0 <= i < |pinned| && pinned[i] == t;
      assert ids[i] == t.id;
    }
    forall id | id in ids ensures exists t :: t in tabs && t.pinned && t.id == id {
      var i :| 0 <= i < |ids| && ids[i] == id;
      assert pinned[i] in pinned;
    }
  }

  /**
   * With a non-empty store, one pinned, inactive tab is created in `window`
   * for every stored URL that is not internal, and for no other URL: each URL
   * once, in ascending rank, at indices 0, 1, 2, … without gaps.
   */
  lemma CreatesEachStoredUrlOnceInRankOrder(window: WindowId, tabs: seq<Tab>, stored: Store<Url>)
    requires stored.Valid() && stored.keys != []
    ensures var c := ProjectionPlan(window, tabs, stored).creates;
      && (forall i :: 0 <= i < |c| ==>
            c[i].window == window && c[i].pinned && !c[i].active && c[i].index == i && !IsInternal(c[i].url))
      && (forall u :: u in stored.rank && !IsInternal(u) <==> exists i :: 0 <= i < |c| && c[i].url == u)
      && (forall i, j :: 0 <= i < j < |c| ==> c[i].url != c[j].url && stored.rank[c[i].url] <= stored.rank[c[j].url])
  {
    var sorted := SortByRank(stored.keys, stored.rank);
    var urls := CreatedUrls(stored);
    var c := CreationsFor(window, urls);
    assert Ranked(stored.keys, stored.rank);
    SortByRankKeepsDistinct(stored.keys, stored.rank);
    ExceptKeepsDistinct(sorted, InternalOf(sorted));
    ExceptKeepsSorted(sorted, InternalOf(sorted), stored.rank);
    assert |c| == |urls|;
    forall i | 0 <= i < |c| ensures c[i] == CreateRequest(window, urls[i], true, false, i) {
    }
    forall u | u in stored.rank && !IsInternal(u) ensures exists i :: 0 <= i < |c| && c[i].url == u {
      var i :| 0 <= i < |urls| && urls[i] == u;
      assert c[i].url == u;
    }
    forall i | 0 <= i < |c| ensures c[i].url in stored.rank && !IsInternal(c[i].url) {
      assert c[i].url == urls[i] && urls[i] in urls;
    }
    forall i, j | 0 <= i < j < |c| ensures c[i].url != c[j].url && stored.rank[c[i].url] <= stored.rank[c[j].url] {
      assert c[i].url == urls[i] && c[j].url == urls[j];
    }
  }

  /** A store ranked 1..N in key order and free of internal URLs is opened in key order. */
  lemma CleanStoreCreatesInKeyOrder(stored: Store<Url>)
    requires InRankOrder(stored)
    requires forall u :: u in stored.rank ==> !IsInternal(u)
    ensures CreatedUrls(stored) == stored.keys
  {
    var sorted := SortByRank(stored.keys, stored.rank);
    assert Ranked(stored.keys, stored.rank);
    SortOfSortedIsIdentity(stored.keys, stored.rank);
    ExceptNothing(sorted, InternalOf(sorted));
  }

  /**
   * With a non-empty store, a pre-existing pinned tab is closed exactly when
   * its current URL is non-empty and stored (internal URLs included), and
   * unpinned exactly when its current URL is non-empty and not stored; so a
   * tab without a URL is in neither list and no tab is in both. Only pinned
   * tabs of the snapshot appear in either list.
   */
  lemma ClosesStoredDuplicatesUnpinsTheRest(window: WindowId, tabs: seq<Tab>, stored: Store<Url>)
    requires stored.Valid() && stored.keys != [] && DistinctIds(tabs)
    ensures var p := ProjectionPlan(window, tabs, stored);
      && (forall t :: t in tabs && t.pinned ==>
            && (t.id in p.close <==> CurrentUrl(t) != "" && CurrentUrl(t) in stored.rank)
            && (t.id in p.unpin <==> CurrentUrl(t) != "" && CurrentUrl(t) !in stored.rank))
      && (forall id :: id in p.close + p.unpin ==> exists t :: t in tabs && t.pinned && t.id == id)
  {
    var pinned := PinnedTabs(tabs);
    var p := ProjectionPlan(window, tabs, stored);
    IdsWithMembers(pinned, stored, Close);
    IdsWithMembers(pinned, stored, Unpin);
    forall t | t in tabs && t.pinned
      ensures t.id in p.close ==> Triage(t, stored) == Close
      ensures t.id in p.unpin ==> Triage(t, stored) == Unpin
    {
      if t.id in p.close {
        var t' :| t' in pinned && t'.id == t.id && Triage(t', stored) == Close;
        SameIdSameTab(tabs, t, t');
      }
      if t.id in p.unpin {
        var t' :| t' in pinned && t'.id == t.id && Triage(t', stored) == Unpin;
        SameIdSameTab(tabs, t, t');
      }
    }
  }

  lemma SameIdSameTab(tabs: seq<Tab>, t: Tab, t': Tab)
    requires DistinctIds(tabs) && t in tabs && t' in tabs && t.id == t'.id
    ensures t == t'
  {
    var i :| 0 <= i < |tabs| && tabs[i] == t;
    var j :| 0 <= j < |tabs| && tabs[j] == t';
  }
}
