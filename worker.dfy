/**
 * The background worker's in-memory protection state (background/worker.js:1-16)
 * and the event handlers that read and change it. Each handler runs as one
 * atomic step. The browser's answers (the stored map, the id of a created tab,
 * whether the window is closing) are parameters. The browser calls a handler
 * makes (a tab to create, a tab to remove, a notice to send, a map to write
 * back) are its results.
 */
module Worker {
  import opened Collections
  import opened Urls
  import opened Browser
  import opened RankStore
  import opened Projection

  const CloseOnceRequest := "arc-repin-close-once"
  const CloseAndRemoveRequest := "arc-repin-close-and-remove"
  const ReopenedNotice := "arc-repin-managed-tab-reopened"
  const ApplyStoredPinnedItem := "apply-stored-pinned"
  const AllowCloseOnceItem := "allow-close-once"
  const LoadComplete := "complete"

  /** `chrome.tabs.sendMessage(tab, { type: kind, originUrl })` */
  datatype Notice = Notice(tab: TabId, kind: string, originUrl: Url)

  /** `tabOriginMap.get(id)`: a missing entry reads as the empty string, which is just as falsy. */
  function OriginOf(m: map<TabId, Url>, id: TabId): Url {
    if id in m then m[id] else ""
  }

  /** `typeof order === "number" ? Math.max(0, order - 1) : 0`: the slot a recreated tab goes to. */
  function RecreateIndex(stored: Store<Url>, origin: Url): int {
    if origin in stored.rank then
      if stored.rank[origin] - 1 < 0 then 0 else stored.rank[origin] - 1
    else 0
  }

  /** The origin map after `tagTab(ids[i], reqs[i].url)` for each i in order. */
  function Tagged(m: map<TabId, Url>, ids: seq<TabId>, reqs: seq<CreateRequest>): (r: map<TabId, Url>)
    requires |ids| <= |reqs|
    ensures r.Keys == m.Keys + (set id | id in ids)
  {
    if ids == [] then m
    else
      var n := |ids| - 1;
      assert ids == ids[..n] + [ids[n]];
      Tagged(m, ids[..n], reqs)[ids[n] := reqs[n].url]
  }

  /**
   * When the browser hands out distinct ids, each created tab is tagged with
   * the URL it was created for, and every other entry is left as it was.
   */
  lemma {:induction false} TaggedWithOwnUrl(m: map<TabId, Url>, ids: seq<TabId>, reqs: seq<CreateRequest>)
    requires |ids| <= |reqs| && Distinct(ids)
    ensures forall i :: 0 <= i < |ids| ==> Tagged(m, ids, reqs)[ids[i]] == reqs[i].url
    ensures forall id :: id in m && id !in ids ==> Tagged(m, ids, reqs)[id] == m[id]
  {
    if ids != [] {
      var n := |ids| - 1;
      assert ids == ids[..n] + [ids[n]];
      DistinctPrefix(ids, n);
      TaggedWithOwnUrl(m, ids[..n], reqs);
      forall i | 0 <= i < n ensures Tagged(m, ids, reqs)[ids[i]] == reqs[i].url {
        assert ids[i] == ids[..n][i] && ids[i] != ids[n];
      }
    }
  }

  lemma TaggedSnoc(m: map<TabId, Url>, ids: seq<TabId>, id: TabId, reqs: seq<CreateRequest>)
    requires |ids| < |reqs|
    ensures Tagged(m, ids + [id], reqs) == Tagged(m, ids, reqs)[id := reqs[|ids|].url]
  {
    var s := ids + [id];
    assert s[..|s| - 1] == ids && s[|s| - 1] == id;
  }

  /**
   * A stored map that is already ranked 1..N in key order and holds no
   * internal URL: a protected tab recreated after removal goes back to the
   * very index at which projection creates it.
   */
  lemma RecreateSlotMatchesProjection(window: WindowId, tabs: seq<Tab>, stored: Store<Url>, origin: Url)
    requires InRankOrder(stored) && origin in stored.rank
    requires forall u :: u in stored.rank ==> !IsInternal(u)
    ensures exists i :: 0 <= i < |ProjectionPlan(window, tabs, stored).creates| &&
              ProjectionPlan(window, tabs, stored).creates[i].url == origin &&
              ProjectionPlan(window, tabs, stored).creates[i].index == RecreateIndex(stored, origin)
  {
    CleanStoreCreatesInKeyOrder(stored);
    var creates := ProjectionPlan(window, tabs, stored).creates;
    assert creates == CreationsFor(window, stored.keys);
    var i :| 0 <= i < |stored.keys| && stored.keys[i] == origin;
    assert creates[i] == CreateRequest(window, origin, true, false, i);
  }

  /** The registries of background/worker.js:1-5. */
  class WorkerState {
    var protectedTabIds: set<TabId>
    var allowCloseOnce: set<TabId>
    var tabOriginMap: map<TabId, Url>
    var pendingToasts: map<TabId, Url>

    /** A tab is protected exactly when it has a recorded origin: every handler adds or deletes both together. */
    ghost predicate Valid()
      reads this
    {
      protectedTabIds == tabOriginMap.Keys
    }

    constructor ()
      ensures Valid()
      ensures protectedTabIds == {} && allowCloseOnce == {} && tabOriginMap == map[] && pendingToasts == map[]
    {
      protectedTabIds := {};
      allowCloseOnce := {};
      tabOriginMap := map[];
      pendingToasts := map[];
    }

    /** `tagTab(tabId, originUrl)`: protect the tab and record (or replace) its origin. */
    method TagTab(tabId: TabId, originUrl: Url)
      requires Valid()
      modifies this
      ensures Valid()
      ensures protectedTabIds == old(protectedTabIds) + {tabId}
      ensures tabOriginMap == old(tabOriginMap)[tabId := originUrl]
      ensures allowCloseOnce == old(allowCloseOnce) && pendingToasts == old(pendingToasts)
    {
      protectedTabIds := protectedTabIds + {tabId};
      tabOriginMap := tabOriginMap[tabId := originUrl];
    }

    /** `clearTag(tabId)`: unprotect the tab and forget its origin, whether or not it was tagged. */
    method ClearTag(tabId: TabId)
      requires Valid()
      modifies this
      ensures Valid()
      ensures protectedTabIds == old(protectedTabIds) - {tabId}
      ensures tabOriginMap == old(tabOriginMap) - {tabId}
      ensures allowCloseOnce == old(allowCloseOnce) && pendingToasts == old(pendingToasts)
    {
      protectedTabIds := protectedTabIds - {tabId};
      tabOriginMap := tabOriginMap - {tabId};
    }

    /**
     * `tabs.onRemoved` (background/worker.js:198-242). `created` is the id of
     * the recreated tab, or `None` when `chrome.tabs.create` failed; the result
     * is the create request issued, if any.
     */
    method OnRemoved(tabId: TabId, isWindowClosing: bool, windowId: WindowId, stored: Store<Url>, created: Option<TabId>)
      returns (recreate: Option<CreateRequest>)
      requires Valid()
      modifies this
      ensures Valid()
      // A removal during window teardown changes nothing.
      ensures isWindowClosing ==>
        && recreate == None
        && protectedTabIds == old(protectedTabIds) && allowCloseOnce == old(allowCloseOnce)
        && tabOriginMap == old(tabOriginMap) && pendingToasts == old(pendingToasts)
      // An exempted removal consumes the exemption and untags the id.
      ensures !isWindowClosing && tabId in old(allowCloseOnce) ==>
        && recreate == None
        && allowCloseOnce == old(allowCloseOnce) - {tabId}
        && protectedTabIds == old(protectedTabIds) - {tabId} && tabOriginMap == old(tabOriginMap) - {tabId}
        && pendingToasts == old(pendingToasts)
      // An untracked tab is ignored.
      ensures !isWindowClosing && tabId !in old(allowCloseOnce) && tabId !in old(protectedTabIds) ==>
        && recreate == None
        && protectedTabIds == old(protectedTabIds) && allowCloseOnce == old(allowCloseOnce)
        && tabOriginMap == old(tabOriginMap) && pendingToasts == old(pendingToasts)
      // A protected tab without an origin is untagged and not recreated.
      ensures (&& !isWindowClosing && tabId !in old(allowCloseOnce) && tabId in old(protectedTabIds)
               && OriginOf(old(tabOriginMap), tabId) == "") ==>
        && recreate == None
        && protectedTabIds == old(protectedTabIds) - {tabId} && tabOriginMap == old(tabOriginMap) - {tabId}
        && allowCloseOnce == old(allowCloseOnce) && pendingToasts == old(pendingToasts)
      // A protected tab with an origin is recreated pinned and active at max(0, rank - 1), or at 0 when unranked;
      // the new id is tagged and given a pending notice, and the old id is untagged even when creation fails.
      ensures (&& !isWindowClosing && tabId !in old(allowCloseOnce) && tabId in old(protectedTabIds)
               && OriginOf(old(tabOriginMap), tabId) != "") ==>
        var origin := OriginOf(old(tabOriginMap), tabId);
        && recreate == Some(CreateRequest(windowId, origin, true, true, RecreateIndex(stored, origin)))
        && allowCloseOnce == old(allowCloseOnce)
        && (created.None? ==>
              && protectedTabIds == old(protectedTabIds) - {tabId} && tabOriginMap == old(tabOriginMap) - {tabId}
              && pendingToasts == old(pendingToasts))
        && (created.Some? ==>
              && protectedTabIds == old(protectedTabIds) + {created.value} - {tabId}
              && tabOriginMap == old(tabOriginMap)[created.value := origin] - {tabId}
              && pendingToasts == old(pendingToasts)[created.value := origin])
    {
      recreate := None;
      if isWindowClosing {
        return;
      }
      if tabId in allowCloseOnce {
        allowCloseOnce := allowCloseOnce - {tabId};
        protectedTabIds := protectedTabIds - {tabId};
        tabOriginMap := tabOriginMap - {tabId};
        return;
      }
      if tabId !in protectedTabIds {
        return;
      }
      var originUrl := OriginOf(tabOriginMap, tabId);
      if originUrl == "" {
        protectedTabIds := protectedTabIds - {tabId};
        tabOriginMap := tabOriginMap - {tabId};
        return;
      }
      var index := RecreateIndex(stored, originUrl);
      recreate := Some(CreateRequest(windowId, originUrl, true, true, index));
      if created.Some? {
        TagTab(created.value, originUrl);
        pendingToasts := pendingToasts[created.value := originUrl];
      }
      // The `finally` block.
      protectedTabIds := protectedTabIds - {tabId};
      tabOriginMap := tabOriginMap - {tabId};
    }

    /**
     * `tabs.onReplaced` (background/worker.js:245-257): protection moves from
     * the removed id to the added id, without a notice.
     */
    method OnReplaced(addedTabId: TabId, removedTabId: TabId)
      requires Valid()
      modifies this
      ensures Valid()
      ensures allowCloseOnce == old(allowCloseOnce) && pendingToasts == old(pendingToasts)
      ensures removedTabId !in old(protectedTabIds) ==>
        protectedTabIds == old(protectedTabIds) && tabOriginMap == old(tabOriginMap)
      ensures removedTabId in old(protectedTabIds) && OriginOf(old(tabOriginMap), removedTabId) == "" ==>
        protectedTabIds == old(protectedTabIds) - {removedTabId} && tabOriginMap == old(tabOriginMap) - {removedTabId}
      ensures removedTabId in old(protectedTabIds) && OriginOf(old(tabOriginMap), removedTabId) != "" ==>
        && protectedTabIds == old(protectedTabIds) - {removedTabId} + {addedTabId}
        && tabOriginMap == (old(tabOriginMap) - {removedTabId})[addedTabId := OriginOf(old(tabOriginMap), removedTabId)]
    {
      if removedTabId !in protectedTabIds {
        return;
      }
      var originUrl := OriginOf(tabOriginMap, removedTabId);
      protectedTabIds := protectedTabIds - {removedTabId};
      tabOriginMap := tabOriginMap - {removedTabId};
      if originUrl != "" {
        TagTab(addedTabId, originUrl);
      }
    }

    /**
     * The notice `tabs.onUpdated` listener (background/worker.js:260-287).
     * `tabUrl` is `tab.url`, empty when absent. The pending entry is consumed
     * on the first load completion; the notice is sent only to a web or file
     * page.
     */
    method OnLoadUpdated(tabId: TabId, status: string, tabUrl: Url) returns (notice: Option<Notice>)
      requires Valid()
      modifies this
      ensures Valid()
      ensures protectedTabIds == old(protectedTabIds) && allowCloseOnce == old(allowCloseOnce) && tabOriginMap == old(tabOriginMap)
      ensures status != LoadComplete || tabId !in old(pendingToasts) ==>
        notice == None && pendingToasts == old(pendingToasts)
      ensures status == LoadComplete && tabId in old(pendingToasts) ==>
        var origin := old(pendingToasts)[tabId];
        && pendingToasts == old(pendingToasts) - {tabId}
        && (notice.Some? <==> CanToast(if tabUrl != "" then tabUrl else origin))
        && (notice.Some? ==> notice.value == Notice(tabId, ReopenedNotice, origin))
    {
      notice := None;
      if status != LoadComplete {
        return;
      }
      if tabId !in pendingToasts {
        return;
      }
      var originUrl := pendingToasts[tabId];
      pendingToasts := pendingToasts - {tabId};
      var url := if tabUrl != "" then tabUrl else originUrl;
      if !CanToast(url) {
        return;
      }
      notice := Some(Notice(tabId, ReopenedNotice, originUrl));
    }

    /**
     * The pin `tabs.onUpdated` listener (background/worker.js:290-317).
     * `pinned` is `changeInfo.pinned`, `None` when the update does not carry
     * it; `writeOk` is whether `chrome.storage.sync.set` succeeds, and the
     * result is the map written back, if any. A failed write ends the handler
     * before the tag changes. The `autoTrackPinned` option is not consulted.
     */
    method OnPinnedChanged(tabId: TabId, pinned: Option<bool>, tabUrl: Url, stored: Store<Url>, writeOk: bool)
      returns (write: Option<Store<Url>>)
      requires Valid() && stored.Valid()
      modifies this
      ensures Valid()
      ensures allowCloseOnce == old(allowCloseOnce) && pendingToasts == old(pendingToasts)
      ensures pinned == None ==>
        && write == None
        && protectedTabIds == old(protectedTabIds) && tabOriginMap == old(tabOriginMap)
      // Pinning an unstored URL appends it after every rank and, once that is written, tags the tab.
      ensures pinned == Some(true) && tabUrl !in stored.rank ==>
        && write == Some(Appended(stored, tabUrl))
        && (writeOk ==>
              protectedTabIds == old(protectedTabIds) + {tabId} && tabOriginMap == old(tabOriginMap)[tabId := tabUrl])
        && (!writeOk ==> protectedTabIds == old(protectedTabIds) && tabOriginMap == old(tabOriginMap))
      // Pinning a stored URL changes nothing.
      ensures pinned == Some(true) && tabUrl in stored.rank ==>
        && write == None
        && protectedTabIds == old(protectedTabIds) && tabOriginMap == old(tabOriginMap)
      // Unpinning deletes a stored URL without renumbering the rest, then untags the tab unless that write failed.
      ensures pinned == Some(false) && tabUrl in stored.rank ==>
        && write == Some(Delete(stored, tabUrl))
        && (writeOk ==>
              protectedTabIds == old(protectedTabIds) - {tabId} && tabOriginMap == old(tabOriginMap) - {tabId})
        && (!writeOk ==> protectedTabIds == old(protectedTabIds) && tabOriginMap == old(tabOriginMap))
      // Unpinning an unstored URL writes nothing and untags the tab.
      ensures pinned == Some(false) && tabUrl !in stored.rank ==>
        && write == None
        && protectedTabIds == old(protectedTabIds) - {tabId} && tabOriginMap == old(tabOriginMap) - {tabId}
    {
      write := None;
      if pinned == None {
        return;
      }
      if pinned.value {
        if tabUrl !in stored.rank {
          write := Some(Appended(stored, tabUrl));
          if !writeOk {
            return;
          }
          TagTab(tabId, tabUrl);
        }
      } else {
        if tabUrl in stored.rank {
          write := Some(Delete(stored, tabUrl));
          if !writeOk {
            return;
          }
        }
        ClearTag(tabId);
      }
    }

    /**
     * `runtime.onMessage` (background/worker.js:359-396). `sender` is the id
     * of the sending tab, `None` without one; `kind` is `message.type`. The
     * results are the map written back and the tab to remove, if any.
     */
    method OnMessage(sender: Option<TabId>, kind: string, stored: Store<Url>)
      returns (write: Option<Store<Url>>, remove: Option<TabId>)
      requires Valid() && stored.Valid()
      modifies this
      ensures Valid()
      ensures pendingToasts == old(pendingToasts)
      // No sender tab (or tab id 0), or an unknown request: nothing happens.
      ensures sender == None || sender == Some(0) || (kind != CloseOnceRequest && kind != CloseAndRemoveRequest) ==>
        && write == None && remove == None
        && protectedTabIds == old(protectedTabIds) && allowCloseOnce == old(allowCloseOnce) && tabOriginMap == old(tabOriginMap)
      // Both requests exempt the sender once, untag it and remove it.
      ensures sender.Some? && sender != Some(0) && (kind == CloseOnceRequest || kind == CloseAndRemoveRequest) ==>
        var id := sender.value;
        && remove == Some(id)
        && allowCloseOnce == old(allowCloseOnce) + {id}
        && protectedTabIds == old(protectedTabIds) - {id} && tabOriginMap == old(tabOriginMap) - {id}
      ensures kind == CloseOnceRequest ==> write == None
      // Close-and-remove also deletes the sender's origin from the store and renumbers, when it is stored.
      ensures sender.Some? && sender != Some(0) && kind == CloseAndRemoveRequest ==>
        var origin := OriginOf(old(tabOriginMap), sender.value);
        write == if origin != "" && origin in stored.rank then Some(DeleteAndRenumber(stored, origin)) else None
    {
      write, remove := None, None;
      if sender == None || sender == Some(0) {
        return;
      }
      var tabId := sender.value;
      if kind == CloseOnceRequest {
        allowCloseOnce := allowCloseOnce + {tabId};
        ClearTag(tabId);
        remove := Some(tabId);
        return;
      }
      if kind == CloseAndRemoveRequest {
        var originUrl := OriginOf(tabOriginMap, tabId);
        allowCloseOnce := allowCloseOnce + {tabId};
        ClearTag(tabId);
        if originUrl != "" && originUrl in stored.rank {
          var normalized := Renumber(Delete(stored, originUrl));
          write := Some(normalized);
        }
        remove := Some(tabId);
      }
    }

    /**
     * `contextMenus.onClicked` (background/worker.js:162-176). `tab` is the
     * clicked tab's id, `None` without one. The result says whether the stored
     * layout is to be applied to the current window.
     */
    method OnContextMenuClicked(item: string, tab: Option<TabId>) returns (applyToCurrentWindow: bool)
      requires Valid()
      modifies this
      ensures Valid()
      ensures pendingToasts == old(pendingToasts)
      ensures applyToCurrentWindow <==> item == ApplyStoredPinnedItem
      ensures item == AllowCloseOnceItem && tab.Some? ==>
        && allowCloseOnce == old(allowCloseOnce) + {tab.value}
        && protectedTabIds == old(protectedTabIds) - {tab.value} && tabOriginMap == old(tabOriginMap) - {tab.value}
      ensures item != AllowCloseOnceItem || tab.None? ==>
        && allowCloseOnce == old(allowCloseOnce) && protectedTabIds == old(protectedTabIds)
        && tabOriginMap == old(tabOriginMap)
    {
      if item == ApplyStoredPinnedItem {
        return true;
      }
      if tab.None? {
        return false;
      }
      if item == AllowCloseOnceItem {
        allowCloseOnce := allowCloseOnce + {tab.value};
        ClearTag(tab.value);
      }
      return false;
    }

    /**
     * `applyStoredPinnedToWindow(window)` (background/worker.js:60-138) over
     * the tab snapshot `tabs`. `created[i]` is the id the browser returns for
     * the i-th create request; a `created` shorter than the plan's creates
     * means the next create failed, which abandons the rest of the run.
     * `unpinOk` is whether every unpin update succeeds; when one fails, the
     * closes are not issued. The result is the browser calls actually issued.
     */
    method ApplyStoredPinnedToWindow(window: WindowId, tabs: seq<Tab>, stored: Store<Url>, created: seq<TabId>, unpinOk: bool)
      returns (issued: Plan)
      requires Valid() && stored.Valid()
      modifies this
      ensures Valid()
      ensures allowCloseOnce == old(allowCloseOnce) && pendingToasts == old(pendingToasts)
      ensures var plan := ProjectionPlan(window, tabs, stored);
        var n := if |created| < |plan.creates| then |created| else |plan.creates|;
        && (|created| >= |plan.creates| ==>
              issued == if plan.unpin != [] && !unpinOk then Plan(plan.creates, [], plan.unpin) else plan)
        && (|created| < |plan.creates| ==> issued == Plan(plan.creates[..|created| + 1], [], []))
        && protectedTabIds == old(protectedTabIds) + (set id | id in created[..n])
        && tabOriginMap == Tagged(old(tabOriginMap), created[..n], plan.creates)
    {
      var plan := PlanProjection(window, tabs, stored);
      issued := RunPlan(plan, created, unpinOk);
    }

    /**
     * Issues the creates of `plan` in order, tagging each created tab, then
     * the unpins, and then the closes once every unpin has succeeded.
     */
    method RunPlan(plan: Plan, created: seq<TabId>, unpinOk: bool) returns (issued: Plan)
      requires Valid()
      modifies this
      ensures Valid()
      ensures allowCloseOnce == old(allowCloseOnce) && pendingToasts == old(pendingToasts)
      ensures var n := if |created| < |plan.creates| then |created| else |plan.creates|;
        && (|created| >= |plan.creates| ==>
              issued == if plan.unpin != [] && !unpinOk then Plan(plan.creates, [], plan.unpin) else plan)
        && (|created| < |plan.creates| ==> issued == Plan(plan.creates[..|created| + 1], [], []))
        && protectedTabIds == old(protectedTabIds) + (set id | id in created[..n])
        && tabOriginMap == Tagged(old(tabOriginMap), created[..n], plan.creates)
    {
      for i := 0 to |plan.creates|
        invariant i <= |created|
        invariant Valid()
        invariant allowCloseOnce == old(allowCloseOnce) && pendingToasts == old(pendingToasts)
        invariant tabOriginMap == Tagged(old(tabOriginMap), created[..i], plan.creates)
      {
        if i == |created| {
          return Plan(plan.creates[..i + 1], [], []);
        }
        assert created[..i + 1] == created[..i] + [created[i]];
        TaggedSnoc(old(tabOriginMap), created[..i], created[i], plan.creates);
        TagTab(created[i], plan.creates[i].url);
      }
      if plan.unpin != [] && !unpinOk {
        return Plan(plan.creates, [], plan.unpin);
      }
      issued := plan;
    }
  }
}
