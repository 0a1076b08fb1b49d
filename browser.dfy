/**
 * What the background worker sees of the browser: tab snapshots given to it by
 * `chrome.tabs.query`, and the `chrome.tabs.create` requests it issues.
 */
module Browser {
  import opened Urls

  type TabId = int
  type WindowId = int

  /** A tab snapshot; an absent `url` or `pendingUrl` is the empty string (both are falsy in JavaScript). */
  datatype Tab = Tab(id: TabId, pinned: bool, url: Url, pendingUrl: Url)

  /** `tab.pendingUrl || tab.url` */
  function CurrentUrl(t: Tab): Url {
    if t.pendingUrl != "" then t.pendingUrl else t.url
  }

  /** The options object of one `chrome.tabs.create` call. */
  datatype CreateRequest = CreateRequest(window: WindowId, url: Url, pinned: bool, active: bool, index: int)

  /** Chrome never hands out the same tab id twice within one query result. */
  ghost predicate DistinctIds(tabs: seq<Tab>) {
    forall i, j :: 0 <= i < j < |tabs| ==> tabs[i].id != tabs[j].id
  }
}
