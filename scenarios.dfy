/**
 * Sequences of events handled by one worker, composed from the handlers'
 * contracts: what a user sees when a protected tab is closed, replaced or
 * exempted.
 */
module Scenarios {
  import opened Collections
  import opened Urls
  import opened Browser
  import opened RankStore
  import opened Projection
  import opened Worker
  import opened OptionsPage

  /**
   * A tagged tab closed through the "close once" request is not recreated, and
   * since that removal also untags it, a later removal event for the same id
   * is not recreated either: the id is no longer tracked at all.
   */
  method CloseOnceThenRemovedTwice(tabId: TabId, window: WindowId, origin: Url, stored: Store<Url>)
    returns (removed: Option<TabId>, first: Option<CreateRequest>, second: Option<CreateRequest>, tracked: bool)
    requires tabId != 0 && origin != "" && stored.Valid()
    ensures removed == Some(tabId)
    ensures first == None && second == None
    ensures !tracked
  {
    var w := new WorkerState();
    w.TagTab(tabId, origin);
    var write;
    write, removed := w.OnMessage(Some(tabId), CloseOnceRequest, stored);
    first := w.OnRemoved(tabId, false, window, stored, None);
    second := w.OnRemoved(tabId, false, window, stored, None);
    tracked := tabId in w.protectedTabIds || tabId in w.allowCloseOnce || tabId in w.tabOriginMap;
  }

  /**
   * Protection follows a tab through an identity replacement: the replacing
   * id, when closed, is recreated at its origin's slot; the recreated tab is
   * protected in turn, and its notice is delivered on its first completed
   * load only.
   */
  method ReplacedThenClosed(tabId: TabId, replacement: TabId, recreated: TabId, window: WindowId, origin: Url, stored: Store<Url>)
    returns (recreate: Option<CreateRequest>, firstNotice: Option<Notice>, secondNotice: Option<Notice>, stillProtected: bool)
    requires replacement != recreated && origin != "" && stored.Valid()
    ensures recreate == Some(CreateRequest(window, origin, true, true, RecreateIndex(stored, origin)))
    ensures firstNotice.Some? <==> CanToast(origin)
    ensures firstNotice.Some? ==> firstNotice.value == Notice(recreated, ReopenedNotice, origin)
    ensures secondNotice == None
    ensures stillProtected
  {
    var w := new WorkerState();
    w.TagTab(tabId, origin);
    w.OnReplaced(replacement, tabId);
    recreate := w.OnRemoved(replacement, false, window, stored, Some(recreated));
    firstNotice := w.OnLoadUpdated(recreated, LoadComplete, "");
    secondNotice := w.OnLoadUpdated(recreated, LoadComplete, "");
    stillProtected := recreated in w.protectedTabIds && w.tabOriginMap[recreated] == origin;
  }

  /**
   * A tab pinned by the user is appended to the store and protected; unpinning
   * it deletes the URL again and drops the protection, so that its removal
   * afterwards recreates nothing.
   */
  method PinThenUnpin(tabId: TabId, url: Url, window: WindowId, stored: Store<Url>)
    returns (added: Option<Store<Url>>, deleted: Option<Store<Url>>, recreate: Option<CreateRequest>)
    requires stored.Valid() && url !in stored.rank
    ensures added.Some? && url in added.value.rank
    ensures deleted.Some? && deleted.value == stored
    ensures recreate == None
  {
    var w := new WorkerState();
    added := w.OnPinnedChanged(tabId, Some(true), url, stored, true);
    deleted := w.OnPinnedChanged(tabId, Some(false), url, added.value, true);
    DeleteUndoesAppend(stored, url);
    recreate := w.OnRemoved(tabId, false, window, stored, None);
  }

  /**
   * Projecting the stored set onto a window whose pinned tab the worker
   * already protects is not idempotent: a fresh tab is created for the URL and
   * the protected one is closed, and since that removal is not exempt the
   * closed tab is recreated as well, leaving two protected tabs for one URL.
   */
  method ReprojectionDuplicatesProtectedTab(window: WindowId, url: Url, pinnedId: TabId, createdId: TabId, recreatedId: TabId)
    returns (issued: Plan, recreate: Option<CreateRequest>, bothProtected: bool)
    requires url != "" && !IsInternal(url)
    requires pinnedId != createdId && pinnedId != recreatedId && createdId != recreatedId
    ensures issued.creates == [CreateRequest(window, url, true, false, 0)]
    ensures issued.close == [pinnedId] && issued.unpin == []
    ensures recreate == Some(CreateRequest(window, url, true, true, 0))
    ensures bothProtected
  {
    var stored := Store([url], map[url := 1]);
    var tabs := [Tab(pinnedId, true, url, "")];
    var w := new WorkerState();
    w.TagTab(pinnedId, url);
    OneStoredUrlOnePinnedTab(window, url, pinnedId);
    issued := w.ApplyStoredPinnedToWindow(window, tabs, stored, [createdId], true);
    assert [createdId][..1] == [createdId];
    recreate := w.OnRemoved(pinnedId, false, window, stored, Some(recreatedId));
    bothProtected := createdId in w.protectedTabIds && recreatedId in w.protectedTabIds;
  }

  /** The plan for a window whose only pinned tab shows the only stored URL. */
  lemma OneStoredUrlOnePinnedTab(window: WindowId, url: Url, pinnedId: TabId)
    requires url != "" && !IsInternal(url)
    ensures var tabs := [Tab(pinnedId, true, url, "")];
      ProjectionPlan(window, tabs, Store([url], map[url := 1]))
        == Plan([CreateRequest(window, url, true, false, 0)], [pinnedId], [])
  {
    var stored := Store([url], map[url := 1]);
    var t := Tab(pinnedId, true, url, "");
    OneUrlIsCreated(url);
    OneCreation(window, url);
    assert Triage(t, stored) == Close;
    OneTab(t, stored);
  }

  lemma OneUrlIsCreated(url: Url)
    requires !IsInternal(url)
    ensures CreatedUrls(Store([url], map[url := 1])) == [url]
  {
    CleanStoreCreatesInKeyOrder(Store([url], map[url := 1]));
  }

  lemma OneCreation(window: WindowId, url: Url)
    ensures CreationsFor(window, [url]) == [CreateRequest(window, url, true, false, 0)]
  {
  }

  lemma OneTab(t: Tab, stored: Store<Url>)
    requires t.pinned
    ensures PinnedTabs([t]) == [t]
    ensures IdsWith([t], stored, Triage(t, stored)) == [t.id]
    ensures forall d :: d != Triage(t, stored) ==> IdsWith([t], stored, d) == []
  {
    assert [t][..0] == [];
  }

  /**
   * One Remove click on a stored URL, as written and as intended: as written
   * nothing is stored, so the URL is still in storage afterwards; with the
   * write taking place, storage holds the URL no longer and is ranked 1..N.
   */
  method RemoveClickAsWrittenAndIntended(stored: Store<Url>, url: Url)
    returns (asWritten: Store<Url>, intended: Store<Url>)
    requires stored.Valid() && url in stored.rank
    ensures asWritten == stored && url in asWritten.rank
    ensures url !in intended.rank && DenseRanks(intended)
  {
    var write := RemovePinAsWritten(stored, url);
    asWritten := AfterWrite(stored, write);
    var written := RemovePin(stored, url);
    intended := AfterWrite(stored, Some(written));
  }
}
