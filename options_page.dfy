/**
 * The options page's list of pinned sites (options/main.js:2-87): the rows it
 * shows and the Remove action. The table markup is not modelled; a row is its
 * number and its URL.
 */
module OptionsPage {
  import opened Collections
  import opened Urls
  import opened RankStore

  const EmptyListText := "No pinned sites yet."

  /** One row of the `pinnedList` table. */
  datatype Row = Placeholder(text: string) | Site(number: int, url: Url)

  /** The rows `{ idx + 1, url }` of a list of URLs. */
  function SiteRows(urls: seq<Url>): seq<Row>
  {
    seq(|urls|, i requires 0 <= i < |urls| => Site(i + 1, urls[i]))
  }

  lemma SiteRowsSnoc(urls: seq<Url>, u: Url)
    ensures SiteRows(urls + [u]) == SiteRows(urls) + [Site(|urls| + 1, u)]
  {
    assert forall i :: 0 <= i < |urls| ==> (urls + [u])[i] == urls[i];
  }

  /**
   * The rows of the stored URLs sorted by rank are numbered 1..N, list every
   * stored URL exactly once and follow ascending rank.
   */
  lemma SiteRowsOfStore(stored: Store<Url>)
    requires stored.Valid()
    ensures var rows := SiteRows(SortByRank(stored.keys, stored.rank));
      && |rows| == |stored.keys|
      && (forall i :: 0 <= i < |rows| ==> rows[i].Site? && rows[i].number == i + 1 && rows[i].url in stored.rank)
      && (forall u :: u in stored.rank ==> exists i :: 0 <= i < |rows| && rows[i].url == u)
      && (forall i, j :: 0 <= i < j < |rows| ==>
            rows[i].url != rows[j].url && stored.rank[rows[i].url] <= stored.rank[rows[j].url])
  {
    var sortedUrls := SortByRank(stored.keys, stored.rank);
    var rows := SiteRows(sortedUrls);
    SortByRankKeepsDistinct(stored.keys, stored.rank);
    forall i | 0 <= i < |rows| ensures rows[i].url in stored.rank {
      assert rows[i].url == sortedUrls[i] && sortedUrls[i] in sortedUrls;
    }
    forall u | u in stored.rank ensures exists i :: 0 <= i < |rows| && rows[i].url == u {
      var i :| 0 <= i < |sortedUrls| && sortedUrls[i] == u;
      assert rows[i].url == u;
    }
    forall i, j | 0 <= i < j < |rows|
      ensures rows[i].url != rows[j].url && stored.rank[rows[i].url] <= stored.rank[rows[j].url]
    {
      assert rows[i].url == sortedUrls[i] && rows[j].url == sortedUrls[j];
    }
  }

  /** The `forEach((url, idx) => ...)` loop that appends one numbered row per URL. */
  method NumberRows(sortedUrls: seq<Url>) returns (rows: seq<Row>)
    ensures rows == SiteRows(sortedUrls)
  {
    rows := [];
    for idx := 0 to |sortedUrls|
      invariant rows == SiteRows(sortedUrls[..idx])
    {
      assert sortedUrls[..idx + 1] == sortedUrls[..idx] + [sortedUrls[idx]];
      SiteRowsSnoc(sortedUrls[..idx], sortedUrls[idx]);
      rows := rows + [Site(idx + 1, sortedUrls[idx])];
    }
    assert sortedUrls[..|sortedUrls|] == sortedUrls;
  }

  /**
   * `loadTabs` (options/main.js:2-68): the placeholder row for an empty store,
   * otherwise one row per stored URL, in ascending rank, numbered from 1.
   */
  method LoadTabsRows(stored: Store<Url>) returns (rows: seq<Row>)
    requires stored.Valid()
    ensures stored.keys == [] ==> rows == [Placeholder(EmptyListText)]
    ensures stored.keys != [] ==>
      && |rows| == |stored.keys|
      && (forall i :: 0 <= i < |rows| ==> rows[i].Site? && rows[i].number == i + 1 && rows[i].url in stored.rank)
      && (forall u :: u in stored.rank ==> exists i :: 0 <= i < |rows| && rows[i].url == u)
      && (forall i, j :: 0 <= i < j < |rows| ==>
            rows[i].url != rows[j].url && stored.rank[rows[i].url] <= stored.rank[rows[j].url])
  {
    if |stored.keys| == 0 {
      return [Placeholder(EmptyListText)];
    }
    rows := NumberRows(SortByRank(stored.keys, stored.rank));
    SiteRowsOfStore(stored);
  }

  /** The map in storage after a Remove click: the one written, or the old one when nothing is written. */
  function AfterWrite(stored: Store<Url>, write: Option<Store<Url>>): Store<Url>
  {
    if write.Some? then write.value else stored
  }

  /**
   * `removePin(url)` (options/main.js:70-87) as written: the renumbered map
   * is computed, but the call that would store it passes `loadTable` as its
   * callback, a name bound nowhere, and evaluating that argument throws
   * before `chrome.storage.sync.set` runs. Nothing is written.
   */
  method RemovePinAsWritten(stored: Store<Url>, url: Url) returns (write: Option<Store<Url>>)
    requires stored.Valid()
    ensures write == None
    ensures AfterWrite(stored, write) == stored
  {
    var rest := Delete(stored, url);
    var normalized := Renumber(rest);
    write := None;
  }

  /**
   * `removePin(url)` (options/main.js:70-87) as intended, with the write
   * taking place: the map written back after deleting `url` and renumbering
   * the rest from 1.
   */
  method RemovePin(stored: Store<Url>, url: Url) returns (written: Store<Url>)
    requires stored.Valid()
    ensures written == DeleteAndRenumber(stored, url)
    ensures url !in written.rank && DenseRanks(written)
  {
    var rest := Delete(stored, url);
    written := Renumber(rest);
    DeleteAndRenumberDenseAndOrdered(stored, url);
  }
}
