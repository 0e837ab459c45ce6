/** The history backfill of `fetch_user_activity.py`: every item of a user's activity walk is
    fetched in fast mode, its deal stored as a manual fetch, and the activity archived under a
    ref chosen from the record. The worker pool is modelled as a sequential pass over the items;
    the database file is a `Tables` value that each worker opens with its own store. */
module Backfill {
  import opened Wrappers
  import opened Text
  import opened Records
  import opened Storage
  import opened Scraper

  const NO_CONTENT: string := "[No Comment Content Extracted (Fast Mode)]"

  /** What `process_item` would archive: the activity type, ref and content. */
  datatype ArchiveEntry = ArchiveEntry(activityType: string, activityRef: Option<string>, content: Option<string>)

  /** The classification of one activity. With the linked comment's text: a comment under the
      comment's id. Without it, a text mentioning "posted" (in any case) is the deal post itself,
      under the deal's id and with its title; anything else is a placeholder comment whose ref is
      made from the wall clock in milliseconds. */
  function Classify(d: DealData, text: string, clockMs: nat): (e: ArchiveEntry)
    ensures Truthy(d.linkedComment) ==> e == ArchiveEntry("comment", d.linkedCommentId, d.linkedComment)
    ensures !Truthy(d.linkedComment) && Contains(Lower(text), "posted") ==> e == ArchiveEntry("post", d.id, d.title)
    ensures !Truthy(d.linkedComment) && !Contains(Lower(text), "posted") ==>
      e.activityType == "comment" && e.content == Some(NO_CONTENT) && e.activityRef.Some?
      && StartsWith(e.activityRef.value, "unknown-")
  {
    if Truthy(d.linkedComment) then ArchiveEntry("comment", d.linkedCommentId, d.linkedComment)
    else if Contains(Lower(text), "posted") then ArchiveEntry("post", d.id, d.title)
    else
      var r := "unknown-" + NatToString(clockMs);
      assert r[..8] == "unknown-";
      ArchiveEntry("comment", Some(r), Some(NO_CONTENT))
  }

  /** The placeholder ref depends on the clock: the same activity classified at two different
      milliseconds gets two different refs, so archiving it twice makes two rows. */
  lemma FallbackRefsDiffer(d: DealData, text: string, ms1: nat, ms2: nat)
    requires !Truthy(d.linkedComment) && !Contains(Lower(text), "posted")
    requires ms1 != ms2
    ensures Classify(d, text, ms1).activityRef != Classify(d, text, ms2).activityRef
  {
    NatToStringValue(ms1);
    NatToStringValue(ms2);
    var a := "unknown-" + NatToString(ms1);
    var b := "unknown-" + NatToString(ms2);
    assert a[8..] == NatToString(ms1) && b[8..] == NatToString(ms2);
    assert NatToString(ms1) != NatToString(ms2);
  }

  /** `process_item` on the database file `t`: opening the store (which prunes old snapshots),
      the fast scrape (`scrape`, which is `FastScrape` applied to the fetched page; any exception
      is a failed scrape too), the manual-fetch upsert and, when the entry has both a ref and
      content, the archive row. The flag is the worker's result. */
  function ProcessItemSpec(t: Tables, item: ActivityItem, username: string, scrape: Scrape, now: int,
                           clockMs: nat): (Tables, bool)
  {
    var pruned := Cleanup(t, DEFAULT_RETENTION_HOURS, now);
    match scrape(item.url)
    case Scraped(d) =>
      var stored := Upsert(pruned, d, MANUAL_FETCH, now);
      var e := Classify(d, item.text, clockMs);
      if Truthy(e.activityRef) && Truthy(e.content) then
        (RecordActivity(stored, username, d.id, e.activityRef.value, e.content.value, e.activityType, now), true)
      else (stored, false)
    case _ => (pruned, false)
  }

  /** A fetch error ends the item with False and stores no deal and no activity. */
  lemma ProcessItemError(t: Tables, item: ActivityItem, username: string, scrape: Scrape, now: int, clockMs: nat)
    requires !scrape(item.url).Scraped?
    ensures var (t', ok) := ProcessItemSpec(t, item, username, scrape, now, clockMs);
      !ok && t'.deals == t.deals && t'.activity == t.activity && t'.alerts == t.alerts
  {
  }

  /** A fetched page is stored as a manual fetch whatever happens to the activity, and the worker
      returns True exactly when it archived an activity: then the row under the entry's ref holds
      the user, the deal's id and the entry's content and type; otherwise the archive is as it
      was. */
  lemma ProcessItemStores(t: Tables, item: ActivityItem, username: string, scrape: Scrape, now: int, clockMs: nat)
    requires scrape(item.url).Scraped?
    ensures var (t', ok) := ProcessItemSpec(t, item, username, scrape, now, clockMs);
      var d := scrape(item.url).data;
      var e := Classify(d, item.text, clockMs);
      && ResolvedKey(d) in t'.deals && t'.deals[ResolvedKey(d)].source == MANUAL_FETCH
      && (ok <==> Truthy(e.activityRef) && Truthy(e.content))
      && (ok ==> e.activityRef.value in t'.activity
                 && t'.activity[e.activityRef.value] == Activity(username, d.id, e.activityRef.value, e.content.value, e.activityType, now))
      && (!ok ==> t'.activity == t.activity)
  {
    var d := scrape(item.url).data;
    UpsertWritesRecord(Cleanup(t, DEFAULT_RETENTION_HOURS, now), d, MANUAL_FETCH, now);
  }

  /** A post whose page the fast scraper reads at `SITE/node/<n>` is archived under the deal's
      node id, as soon as the page scrapes with a title. */
  lemma PostArchivedUnderDealId(t: Tables, item: ActivityItem, username: string, scrape: Scrape, now: int,
                                clockMs: nat, resp: FastResponse, clockText: string, n: string)
    requires AllDigits(n)
    requires resp.FastPage? && resp.resolvedUrl == SITE + "/node/" + n
    requires scrape(item.url) == FastScrape(item.url, resp, now, clockText)
    requires Contains(Lower(item.text), "posted")
    requires scrape(item.url).Scraped? ==> !Truthy(scrape(item.url).data.linkedComment)
    ensures var (t', ok) := ProcessItemSpec(t, item, username, scrape, now, clockMs);
      scrape(item.url).Scraped? && Truthy(scrape(item.url).data.title) ==>
        ok && ("node/" + n) in t'.activity && t'.activity["node/" + n].activityType == "post"
  {
    FastScrapeOfDealPage(item.url, n, resp, now, clockText);
    if scrape(item.url).Scraped? {
      ProcessItemStores(t, item, username, scrape, now, clockMs);
    }
  }

  /** The worker: opens its own store on the file, and gives back its result and the file. */
  method ProcessItem(file: Tables, item: ActivityItem, username: string, scrape: Scrape, now: int, clockMs: nat)
    returns (ok: bool, file': Tables)
    ensures (file', ok) == ProcessItemSpec(file, item, username, scrape, now, clockMs)
  {
    var db := new StorageManager(file, now);
    var result := scrape(item.url);
    if !result.Scraped? {
      ok := false;
      file' := db.State();
      return;
    }
    var d := result.data;
    var _ := db.UpsertLiveDeal(d, MANUAL_FETCH, now);
    var content := d.linkedComment;
    var activityType := "comment";
    var activityRef := d.linkedCommentId;
    if !Truthy(content) {
      if Contains(Lower(item.text), "posted") {
        activityType := "post";
        content := d.title;
        activityRef := d.id;
      } else {
        content := Some(NO_CONTENT);
        activityRef := Some("unknown-" + NatToString(clockMs));
      }
    }
    if Truthy(activityRef) && Truthy(content) {
      db.LogUserActivity(username, d.id, activityRef.value, content.value, activityType, now);
      ok := true;
    } else {
      ok := false;
    }
    file' := db.State();
  }

  /** One worker's effect on the running pass: the file it leaves and the count of True results. */
  function ArchiveStep(prev: (Tables, nat), item: ActivityItem, username: string, scrape: Scrape, now: int,
                       clockMs: nat): (r: (Tables, nat))
    ensures r.1 <= prev.1 + 1
  {
    var w := ProcessItemSpec(prev.0, item, username, scrape, now, clockMs);
    (w.0, prev.1 + if w.1 then 1 else 0)
  }

  /** The items processed one after another: the final file and the number of True results.
      `clockMs(k)` is the wall clock of the `k`-th worker. */
  function ArchiveAll(t: Tables, items: seq<ActivityItem>, username: string, scrape: Scrape, now: int,
                      clockMs: nat -> nat): (r: (Tables, nat))
    ensures r.1 <= |items|
    decreases |items|
  {
    if items == [] then (t, 0)
    else
      ArchiveStep(ArchiveAll(t, items[..|items| - 1], username, scrape, now, clockMs), items[|items| - 1],
                  username, scrape, now, clockMs(|items| - 1))
  }

  /** The pass never removes an archived activity or a stored deal. */
  lemma {:induction false} ArchiveAllKeepsArchive(t: Tables, items: seq<ActivityItem>, username: string,
                                                  scrape: Scrape, now: int, clockMs: nat -> nat)
    ensures t.activity.Keys <= ArchiveAll(t, items, username, scrape, now, clockMs).0.activity.Keys
    ensures t.deals.Keys <= ArchiveAll(t, items, username, scrape, now, clockMs).0.deals.Keys
    decreases |items|
  {
    if items != [] {
      ArchiveAllKeepsArchive(t, items[..|items| - 1], username, scrape, now, clockMs);
    }
  }

  /** One more item extends the pass by one worker. */
  lemma ArchiveAllNext(t: Tables, items: seq<ActivityItem>, i: nat, username: string, scrape: Scrape,
                       now: int, clockMs: nat -> nat)
    requires i < |items|
    ensures ArchiveAll(t, items[..i + 1], username, scrape, now, clockMs) ==
      ArchiveStep(ArchiveAll(t, items[..i], username, scrape, now, clockMs), items[i], username, scrape, now, clockMs(i))
  {
    assert items[..i + 1][..i] == items[..i];
  }

  /** The wait for the workers: the count of True results as each one completes. */
  method ArchiveItems(file0: Tables, futures: seq<ActivityItem>, username: string, scrape: Scrape,
                      now: int, clockMs: nat -> nat)
    returns (completed: nat, file: Tables)
    ensures (file, completed) == ArchiveAll(file0, futures, username, scrape, now, clockMs)
  {
    completed := 0;
    file := file0;
    for i := 0 to |futures|
      invariant (file, completed) == ArchiveAll(file0, futures[..i], username, scrape, now, clockMs)
    {
      ArchiveAllNext(file0, futures, i, username, scrape, now, clockMs);
      var ok;
      ok, file := ProcessItem(file, futures[i], username, scrape, now, clockMs(i));
      if ok {
        completed := completed + 1;
      }
    }
    assert futures[..|futures|] == futures;
  }

  /** `fetch_user_activity`: the walk discovers the items, each one is submitted, and the
      completed count is the number of workers that returned True; so it never exceeds the
      submitted count, which never exceeds the limit. */
  method FetchUserActivity(file0: Tables, username: string, limit: int, pages: seq<ActivityPage>, startHeight: int,
                           scrape: Scrape, now: int, clockMs: nat -> nat)
    returns (items: seq<ActivityItem>, submitted: nat, completed: nat, file: Tables)
    ensures submitted == |items| && (submitted <= limit || submitted == 0)
    ensures NoDuplicates(UrlsOf(items))
    ensures (file, completed) == ArchiveAll(file0, items, username, scrape, now, clockMs)
    ensures completed <= submitted
  {
    var stop, retries;
    items, stop, retries := UserActivity(pages, limit, startHeight);
    submitted := 0;
    var futures: seq<ActivityItem> := [];
    for i := 0 to |items|
      invariant submitted == i && futures == items[..i]
    {
      submitted := submitted + 1;
      futures := futures + [items[i]];
    }
    assert futures == items;
    completed, file := ArchiveItems(file0, futures, username, scrape, now, clockMs);
  }
}
