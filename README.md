# arc-repin: a verified model of the pinned-tab engine

arc-repin is a browser extension that keeps a persisted, ranked set of pinned
URLs (`storedTabs`, URL -> rank) and keeps the browser's pinned row in line
with it. This project models, in Dafny, the parts of it that decide things:

- the `storedTabs` map and the transformations applied to it: sorting by rank,
  appending a newly pinned URL after every rank, deleting a URL, deleting and
  renumbering densely from 1, and the drag-reorder merge (modules `RankStore`
  and `Reorder`);
- the projection of the stored set onto a window (`applyStoredPinnedToWindow`):
  which tabs are created at which indices, and which pre-existing pinned tabs
  are closed or unpinned (module `Projection`);
- the background worker's protection registries (`protectedTabIds`,
  `allowCloseOnce`, `tabOriginMap`, `pendingToasts`). They are the fields of
  the class `Worker.WorkerState`, whose methods are `tagTab`, `clearTag` and
  the event handlers: removal with auto-recreate, identity replacement, the
  load-complete notice, pin toggles, the close-once and close-and-remove
  messages, the context menu, and the projection run itself (module `Worker`);
- the options page's listing and its Remove action (module `OptionsPage`);
- a few event sequences composed from the handlers' contracts (module
  `Scenarios`).

The browser is not modelled. What a handler reads from it becomes a
parameter: the stored map, the tab snapshot, the id a `chrome.tabs.create`
call returns (or its failure), and whether a window is closing. What a handler
asks of it becomes a result: the create requests, the ids to close or unpin,
the notice to send, the map to write back. Each handler runs as one atomic step.

A JavaScript object such as `storedTabs` is modelled as `Store(keys, rank)`:
its own keys in insertion order, plus the map of their values. The sort used
throughout is a stable insertion sort, as `Array.prototype.sort` is stable, so
equal ranks are allowed and keep their insertion order
(`RankStore.SortByRankIsStable`). Where the source only tests a tab URL for
truth (`tab.pendingUrl || tab.url` in the projection, `tab.url || originUrl`
for the notice), an absent URL is modelled as the empty string, which is just
as falsy. Where it uses the URL as an object key (the pin and reorder
handlers), an absent URL would become the key `"undefined"`; the model does
not cover that case.

Where the design description of the extension and its code differ, the model
follows the code:

- The projection never reuses an existing tab. It creates a fresh tab for every
  stored URL that is not internal. It closes every pre-existing pinned tab whose
  URL is stored, internal URLs included, and unpins the others that have a URL;
  a pinned tab without one stays pinned. The design
  speaks of unpinning duplicates and of never destroying anything; the code
  closes them.
- A failed `chrome.tabs.create` during projection abandons the rest of the run,
  closes and unpins included. The design calls for best-effort continuation.
- The pin handler and the drag-reorder handler never read `autoTrackPinned`.
  They act on every pin change and every move of a pinned tab.
- Unpinning deletes the URL without renumbering. A deletion other than of the
  last rank therefore leaves a gap (`RankStore.DeleteKeepsDenseOnlyForLast`).
  The design promises ranks `1..N` after every mutation.
- Running the projection again on a window whose pinned tabs the worker
  already protects neither reuses nor deduplicates them. It creates a fresh
  tab for each URL and closes the protected one. That removal is not exempt,
  so the worker recreates the closed tab, and the window ends with two
  protected pinned tabs for the URL
  (`Scenarios.ReprojectionDuplicatesProtectedTab`).
- Granting "allow close once" also clears the tab's tag, and the exempted
  removal deletes the id from `allowCloseOnce`, `protectedTabIds` and
  `tabOriginMap`. The design expects a second
  removal of the same id to be auto-restored. In the code, that second removal
  finds an untracked id and does nothing
  (`Scenarios.CloseOnceThenRemovedTwice`).

## Model

| member | source | states |
|---|---|---|
| RankStore.Delete | background/worker.js:310-312 | The written map lacks exactly the deleted URL, every other URL keeps its rank, and deleting an absent URL leaves the map as it was |
| RankStore.DeleteKeepsDenseOnlyForLast | background/worker.js:310-312 | On a densely ranked map, the unpin deletion keeps the ranks 1..N exactly when the deleted URL held the last rank; otherwise it leaves a gap |
| RankStore.MaxRank | background/worker.js:302-303 | The result bounds every rank, is 0 for an empty map, and is attained by some URL otherwise |
| RankStore.Appended | background/worker.js:301-305 | The new URL is added after every stored rank (rank 1 in an empty map, one more than some stored rank otherwise); other URLs keep their ranks |
| RankStore.MaxRankOfDense | background/worker.js:302-303 | On a map ranked exactly 1..N, the largest rank is N |
| RankStore.AppendedKeepsDense | background/worker.js:301-305 | Pinning a new URL onto a map ranked exactly 1..N gives a map ranked exactly 1..N+1 |
| RankStore.DeleteUndoesAppend | background/worker.js:299-313 | Unpinning a URL just pinned restores the map it was added to, key order included |
| RankStore.SortByRank | background/worker.js:67-69 | The sorted list has the keys' length and members, in non-decreasing rank |
| RankStore.SortByRankIsPermutation | background/worker.js:67-69 | The sorted list is a permutation of the keys, repeats counted |
| RankStore.SortByRankIsStable | background/worker.js:67-69 | A key listed before another key of no smaller rank is still listed before it after sorting, so equal ranks keep their insertion order |
| RankStore.SortByRankKeepsDistinct | background/worker.js:67-69 | Sorting distinct keys gives a list without repeats |
| RankStore.InRankOrderIsDense | background/worker.js:384-387 | A map whose i-th key has rank i + 1 has ranks exactly 1..N, each used once |
| RankStore.Numbered | background/worker.js:350-353 | Numbering a list of distinct URLs gives a map whose keys are that list in order, ranked 1..N by position |
| RankStore.NumberInOrder | background/worker.js:350-353 | The `forEach` that assigns `idx + 1` builds exactly the numbered map of its list |
| RankStore.Renormalized | background/worker.js:381-387 | Renumbering keeps the same URLs and ranks them 1..N in key order |
| RankStore.Renumber | background/worker.js:381-387 | The sort-then-number loop builds the renormalized map |
| RankStore.RenormalizedKeepsOrder | background/worker.js:381-387 | A URL ranked strictly before another is still ranked strictly before it after renumbering |
| RankStore.RenormalizedIdempotent | options/main.js:76-83 | Renumbering a map that is already ranked 1..N in key order changes nothing |
| RankStore.DeleteAndRenumber | options/main.js:74-83 | The written map lacks the deleted URL, keeps every other stored URL, and is ranked 1..N in key order |
| RankStore.DeleteAndRenumberDenseAndOrdered | options/main.js:74-83 | After delete-and-renumber the URL is gone, the ranks are exactly 1..N, and the remaining URLs keep their relative rank order |
| RankStore.DeleteAndRenumberIdempotent | options/main.js:71-83 | Removing an absent URL only renormalises, and removing the same URL twice gives the same map as removing it once |
| Collections.FirstOccurrences | background/worker.js:338-345 | The deduplicated row has the same members as the row and no repeats |
| Collections.FirstOccurrencesInOrder | background/worker.js:338-345 | The deduplicated row lists URLs in the order of their first occurrence in the row |
| Projection.PinnedTabs | background/worker.js:63 | The result holds exactly the pinned tabs of the snapshot |
| Projection.CreatedUrls | background/worker.js:84-89 | The URLs opened are exactly the stored URLs that are not internal |
| Projection.PlanCreates | background/worker.js:83-103 | The creation loop, whose index counts only the URLs not skipped as internal, issues one create per non-internal URL of the sorted list at indices 0, 1, 2, … |
| Projection.PlanTriage | background/worker.js:108-125 | The triage loop puts in `toClose` the ids of tabs showing a stored URL and in `toUnpin` those showing another non-empty URL, in snapshot order |
| Projection.PlanProjection | background/worker.js:60-138 | The projection's steps 1 to 5 compute the projection plan of the snapshot and the stored map |
| Projection.IdsWithMembers | background/worker.js:113-125 | An id is listed for a disposition exactly when a tab of the list with that id has that disposition |
| Projection.EmptyStoreUnpinsEveryPinnedTab | background/worker.js:72-80 | With nothing stored, nothing is created or closed and exactly the pinned tabs are unpinned |
| Projection.CreatesEachStoredUrlOnceInRankOrder | background/worker.js:82-103 | Otherwise one pinned, inactive tab is created in the window per stored non-internal URL and for no other URL, each once, in ascending rank, at indices 0, 1, 2, … |
| Projection.CleanStoreCreatesInKeyOrder | background/worker.js:67-103 | A map ranked 1..N in key order without internal URLs is opened in key order |
| Projection.ClosesStoredDuplicatesUnpinsTheRest | background/worker.js:108-135 | A pinned tab is closed iff its current URL is non-empty and stored (internal ones included), unpinned iff it is non-empty and not stored, so a tab without a URL is in neither list and none is in both; only pinned tabs of the snapshot are listed |
| Reorder.MergedUrls | background/worker.js:338-348 | The merged URL list has no repeats |
| Reorder.SyncDragOrder | background/worker.js:320-357 | A move of an unpinned tab writes nothing; a move of a pinned tab writes the merged map of the row and the stored map |
| Reorder.MergedIsDenseAndKeepsEveryUrl | background/worker.js:347-353 | The new ranks are exactly 1..N, and the new map holds exactly the row's URLs and the stored URLs: none is dropped |
| Reorder.MergedRankIsPosition | background/worker.js:350-353 | Each URL is ranked one more than its position in the merged list |
| Reorder.MergedKeepsRowOrder | background/worker.js:338-345 | Row URLs are ranked in the order of their first occurrence in the row |
| Reorder.MergedPutsRowFirst | background/worker.js:347-348 | Every row URL is ranked before every stored URL missing from the row |
| Reorder.MergedKeepsRestOrder | background/worker.js:347-348 | Stored URLs missing from the row keep their prior relative rank order |
| Worker.Tagged | background/worker.js:101 | Tagging the created ids adds exactly those ids to the origin map's keys |
| Worker.TaggedWithOwnUrl | background/worker.js:93-101 | With distinct ids, each created tab is tagged with the URL it was created for, and other entries are untouched |
| Worker.RecreateSlotMatchesProjection | background/worker.js:221-222 | For a map ranked 1..N without internal URLs, a recreated tab goes to the index at which projection creates its URL |
| Worker.WorkerState.constructor | background/worker.js:1-5 | All four registries start empty |
| Worker.WorkerState.TagTab | background/worker.js:7-11 | The tab becomes protected with the given origin; nothing else changes |
| Worker.WorkerState.ClearTag | background/worker.js:13-16 | The tab is unprotected and its origin forgotten; nothing else changes |
| Worker.WorkerState.OnRemoved | background/worker.js:198-242 | Window teardown changes nothing; an exempted id loses its exemption and its tag and is not recreated; an untracked id is ignored; a protected id without origin is untagged; otherwise a pinned, active tab is requested at max(0, rank - 1) (0 when unranked), the new id is tagged and given a pending notice, and the old id is untagged even when creation fails |
| Worker.WorkerState.OnReplaced | background/worker.js:245-257 | Protection and origin move from the removed id to the added id, with no pending notice; an unprotected removed id changes nothing |
| Worker.WorkerState.OnLoadUpdated | background/worker.js:260-287 | The first completed load of an id with a pending notice consumes the entry and sends the notice iff the tab's URL (or the origin) is a web or file address; anything else changes nothing |
| Worker.WorkerState.OnPinnedChanged | background/worker.js:290-317 | Pinning an unstored URL writes it appended and, if that write succeeds, tags the tab; pinning a stored URL changes nothing; unpinning writes a stored URL deleted without renumbering and then untags the tab unless that write failed; unpinning an unstored URL only untags |
| Worker.WorkerState.OnMessage | background/worker.js:359-396 | Both close requests exempt the sender once, untag it and remove it; close-and-remove also writes the map without the sender's origin, renumbered 1..N, when that origin is stored, and writes nothing otherwise; no sender does nothing |
| Worker.WorkerState.OnContextMenuClicked | background/worker.js:162-176 | "Allow closing once" on a tab exempts it once and untags it; the restore item asks for the projection on the current window |
| Worker.WorkerState.ApplyStoredPinnedToWindow | background/worker.js:60-138 | The calls issued are the whole projection plan, or its creates up to the first that fails, or (when an unpin fails) everything but the closes; exactly the created ids are tagged, each with the URL it was created for |
| Worker.WorkerState.RunPlan | background/worker.js:93-135 | Running a plan issues its creates in order, tagging each created id, stops at the first failed create, then issues the unpins, and the closes only when every unpin succeeded |
| OptionsPage.SiteRowsOfStore | options/main.js:19-43 | The rows are numbered 1..N, list every stored URL exactly once, and follow ascending rank |
| OptionsPage.NumberRows | options/main.js:35-43 | The row-building loop gives the row `idx + 1, url` for each URL in order |
| OptionsPage.LoadTabsRows | options/main.js:2-68 | An empty map gives the single "No pinned sites yet." row; otherwise the rows are numbered 1..N, one per stored URL, in ascending rank |
| OptionsPage.RemovePin | options/main.js:70-87 | As intended, with the write taking place: the written map is the stored map with the URL deleted and the rest renumbered, so the URL is gone and the ranks are exactly 1..N |
| OptionsPage.RemovePinAsWritten | options/main.js:70-87 | As written, the call that would store the renumbered map throws while evaluating its callback argument, so nothing is written and storage keeps the old map |
| Scenarios.CloseOnceThenRemovedTwice | background/worker.js:198-210 | After "close once", neither the exempted removal nor a second removal of the same id is recreated, and the id is no longer tracked |
| Scenarios.ReplacedThenClosed | background/worker.js:245-257 | A replaced protected tab, when closed, is recreated at its origin's slot; the new tab is protected and its notice is delivered on its first completed load only |
| Scenarios.ReprojectionDuplicatesProtectedTab | background/worker.js:113-134 | Projecting one stored URL onto a window whose protected pinned tab shows it creates a new tab and closes the old one, whose removal is then recreated: two protected tabs for one URL |
| Scenarios.OneStoredUrlOnePinnedTab | background/worker.js:82-125 | The plan for one stored URL and one pinned tab showing it is one create at index 0 and one close |
| Scenarios.PinThenUnpin | background/worker.js:299-315 | Pinning then unpinning a new URL writes back the original map, and the tab's later removal recreates nothing |
| Scenarios.RemoveClickAsWrittenAndIntended | options/main.js:70-87 | One Remove click on a stored URL: as written, storage still holds the old map and the URL; as intended, storage no longer holds the URL and is ranked exactly 1..N |

Several functions without a contract of their own are covered by the rows of
the members that use them: `Urls.IsInternal` (background/worker.js:85) by
`Projection.CreatedUrls` and `Projection.CreatesEachStoredUrlOnceInRankOrder`;
`Urls.CanToast` (background/worker.js:271-273) by
`Worker.WorkerState.OnLoadUpdated`; `Worker.RecreateIndex`
(background/worker.js:221-222) by `Worker.WorkerState.OnRemoved` and
`Worker.RecreateSlotMatchesProjection`; `Projection.ProjectionPlan`
(background/worker.js:60-138) by `Projection.PlanProjection` and the
projection lemmas; `Reorder.Merged` (background/worker.js:350-353) by
`Reorder.SyncDragOrder` and the `Reorder.Merged*` lemmas; `Projection.TabIds`
(background/worker.js:75) by `Projection.EmptyStoreUnpinsEveryPinnedTab` and
`Projection.PlanTriage`; `Projection.CreationsFor` (background/worker.js:93-99)
by `Projection.PlanCreates` and `Projection.CreatesEachStoredUrlOnceInRankOrder`;
`Reorder.TabUrls` (background/worker.js:339-343) by `Reorder.SyncDragOrder`;
`OptionsPage.SiteRows` (options/main.js:35-43) by `OptionsPage.NumberRows`,
`OptionsPage.SiteRowsOfStore` and `OptionsPage.LoadTabsRows`; and
`OptionsPage.AfterWrite` (options/main.js:85), the map in storage after a
Remove click, by `OptionsPage.RemovePinAsWritten` and
`Scenarios.RemoveClickAsWrittenAndIntended`.

## Left out

- The browser APIs (`chrome.tabs`, `chrome.storage.sync`, `chrome.contextMenus`, `chrome.commands`, `chrome.action`, `chrome.windows`): their answers are parameters and their requests results.
- Failures of browser calls that are modelled: a failed `tabs.create` (in the projection and in the removal handler), a failed `storage.sync.set` in the pin handler (`writeOk`), and a failed unpin update in the projection (`unpinOk`).
- Worker.WorkerState.OnPinnedChanged: a failed `storage.sync.get` (background/worker.js:296-297) ends the handler before anything is written or (un)tagged; the model always has the read succeed.
- Worker.WorkerState.ApplyStoredPinnedToWindow: a failed `tabs.query` or `storage.sync.get` at the start (background/worker.js:62-66) ends the run before any call is issued; the model always has them succeed.
- Worker.WorkerState.OnRemoved: a failed `storage.sync.get` (background/worker.js:220) skips the create request, with the same effect on the registries as a failed create; the model has the read succeed and covers only the failed create.
- Failures that change no registry and no write: `tabs.remove` and `tabs.sendMessage`, the reads of the drag-reorder and close-and-remove handlers (which then write nothing), and `storage.sync.set` in those handlers.
- Asynchronous interleaving of handlers and lost updates on `storedTabs`: each handler is one atomic step.
- `background/toast.js`: the notice's page markup, styling and timers.
- The `onInstalled` storage initialisation and menu registration (background/worker.js:19-49), console logging and the badge argument of `tagTab`.
- The `reset-managed-tab` menu item (background/worker.js:178-187): it only reads `tabOriginMap` and navigates the tab.
- The triggers that call the projection (`windows.onCreated` with its window-type check, the action click, the keyboard command, `getLastFocused`): the model takes the window id as given.
- The options page's markup, hostname display and `loadOptions`/`saveOptions`. The reload of the list after a removal is not modelled; the `loadTable` callback that would do it names nothing defined, which stops the write itself (see "## Findings").
- Stored values that are not numbers: the model's ranks are integers, so the `typeof order === "number"` test in the removal handler reduces to whether the URL is stored.
- Integer-like object keys, which JavaScript would list before the others: stored keys are URLs, so insertion order is modelled.
- Reorder.SyncDragOrder: `rowTabs` is the window's pinned tabs already sorted by index; the `tabs.get` of the moved tab is the `movedPinned` flag.
- Projection.PlanProjection: the plan lists closes before unpins, while the source issues the unpins first; the worker's run (`RunPlan`) issues the closes only after every unpin succeeded, which is the only way the order shows.

## Findings

| source | as written | input that shows it | evidently intended | confidence | as-written member | corrected member |
|---|---|---|---|---|---|---|
| options/main.js:85 | `chrome.storage.sync.set({ storedTabs: normalized }, loadTable)` passes `loadTable`, a name no script of the page defines; evaluating that argument throws a ReferenceError before `set` runs, so the renumbered map is never stored | `storedTabs = { "https://a/": 1 }`, Remove clicked for `"https://a/"`: the URL stays stored | store the renumbered map, then reload the list | not executed; high, unless a script outside the modelled files defines `loadTable` | OptionsPage.RemovePinAsWritten, Scenarios.RemoveClickAsWrittenAndIntended | OptionsPage.RemovePin, RankStore.DeleteAndRenumberDenseAndOrdered, RankStore.DeleteAndRenumberIdempotent |
