/** The data-recovery script `scripts/cleanup_db.py`: rows whose title is the site's host name
    or empty are re-scraped through their normalised url and written back, and the script counts
    the ones that came back with a real title. The database file is a `Tables` value. */
module Recovery {
  import opened Wrappers
  import opened Text
  import opened Records
  import opened Storage
  import opened Feed

  const NOISE_TITLE: string := "www.ozbargain.com.au"

  /** The rows the script goes after. */
  predicate Noisy(row: LiveDeal) {
    row.title == Some(NOISE_TITLE) || row.title == Some("")
  }

  datatype NoisyRecord = NoisyRecord(resolvedId: string, resolvedUrl: string)

  /** The SELECT, with the rows met in the table order `order` (each key once): the id and url
      of every noisy row, each id once. */
  function SelectNoisy(t: Tables, order: seq<string>): (r: seq<NoisyRecord>)
    requires NoDuplicates(order)
    ensures |r| <= |order|
    ensures forall x :: x in r <==>
      x.resolvedId in order && x.resolvedId in t.deals && Noisy(t.deals[x.resolvedId])
      && x.resolvedUrl == t.deals[x.resolvedId].resolvedUrl
    ensures forall a, b :: 0 <= a < b < |r| ==> r[a].resolvedId != r[b].resolvedId
    decreases |order|
  {
    if order == [] then []
    else
      var rest := SelectNoisy(t, order[1..]);
      var id := order[0];
      SelectCons(t, order, rest);
      if id in t.deals && Noisy(t.deals[id]) then [NoisyRecord(id, t.deals[id].resolvedUrl)] + rest
      else rest
  }

  /** The selection over the rows after the first, with the first row in front when it is noisy,
      is the selection over all rows. */
  lemma SelectCons(t: Tables, order: seq<string>, rest: seq<NoisyRecord>)
    requires order != [] && NoDuplicates(order)
    requires |rest| <= |order| - 1
    requires forall x :: x in rest <==>
      x.resolvedId in order[1..] && x.resolvedId in t.deals && Noisy(t.deals[x.resolvedId])
      && x.resolvedUrl == t.deals[x.resolvedId].resolvedUrl
    requires forall a, b :: 0 <= a < b < |rest| ==> rest[a].resolvedId != rest[b].resolvedId
    ensures var id := order[0];
      var r := if id in t.deals && Noisy(t.deals[id]) then [NoisyRecord(id, t.deals[id].resolvedUrl)] + rest else rest;
      && |r| <= |order|
      && (forall x :: x in r <==>
           x.resolvedId in order && x.resolvedId in t.deals && Noisy(t.deals[x.resolvedId])
           && x.resolvedUrl == t.deals[x.resolvedId].resolvedUrl)
      && (forall a, b :: 0 <= a < b < |r| ==> r[a].resolvedId != r[b].resolvedId)
  {
    var id := order[0];
    assert forall x :: x in order <==> x == id || x in order[1..];
    assert id !in order[1..] by {
      forall j | 0 <= j < |order[1..]| ensures order[1..][j] != id {
        assert order[1..][j] == order[j + 1];
      }
    }
    if id in t.deals && Noisy(t.deals[id]) {
      var r := [NoisyRecord(id, t.deals[id].resolvedUrl)] + rest;
      assert forall b :: 1 <= b < |r| ==> r[b] == rest[b - 1] && r[b] in rest;
    }
  }

  /** The selection reads the deals table only. */
  lemma SelectReadsDeals(t: Tables, u: Tables, order: seq<string>)
    requires NoDuplicates(order) && t.deals == u.deals
    ensures SelectNoisy(t, order) == SelectNoisy(u, order)
  {
  }

  /** A re-scraped title other than the two generic ones counts as recovered; an empty title
      counts too. A record without a title is not counted: the membership test lets it through,
      but reading `deal_data['title']` for the message then raises, and the handler skips the
      increment. */
  predicate TitleRecovered(title: Option<string>) {
    title.Some? && title.value != "OzBargain" && title.value != NOISE_TITLE
  }

  /** The loop over the selected records, from the file `t`: a record whose scrape fails is
      skipped; any other is upserted as a live deal, and counted when its title is recovered. */
  function RecoverAll(t: Tables, records: seq<NoisyRecord>, scrape: Scrape, now: int): (r: (Tables, nat))
    ensures r.0.alerts == t.alerts && r.0.watched == t.watched && r.0.activity == t.activity
    ensures t.deals.Keys <= r.0.deals.Keys
    decreases |records|
  {
    if records == [] then (t, 0)
    else
      var prev := RecoverAll(t, records[..|records| - 1], scrape, now);
      var rec := records[|records| - 1];
      match scrape(RedirNormalized(rec.resolvedUrl))
      case Scraped(d) => (Upsert(prev.0, d, LIVE, now), prev.1 + if TitleRecovered(d.title) then 1 else 0)
      case _ => prev
  }

  /** The number of records whose scrape succeeds with a recovered title. */
  function CountRecovered(records: seq<NoisyRecord>, scrape: Scrape): (n: nat)
    ensures n <= |records|
    decreases |records|
  {
    if records == [] then 0
    else
      var rec := records[|records| - 1];
      var result := scrape(RedirNormalized(rec.resolvedUrl));
      CountRecovered(records[..|records| - 1], scrape) + if result.Scraped? && TitleRecovered(result.data.title) then 1 else 0
  }

  /** The script's counter is the number of recovered records, so it never exceeds the number of
      records selected. */
  lemma {:induction false} RecoverAllCounts(t: Tables, records: seq<NoisyRecord>, scrape: Scrape, now: int)
    ensures RecoverAll(t, records, scrape, now).1 == CountRecovered(records, scrape)
    ensures RecoverAll(t, records, scrape, now).1 <= |records|
    decreases |records|
  {
    if records != [] {
      RecoverAllCounts(t, records[..|records| - 1], scrape, now);
    }
  }

  /** A record whose scrape fails leaves the file as it was. */
  lemma FailedScrapeSkipped(t: Tables, records: seq<NoisyRecord>, scrape: Scrape, now: int)
    requires records != []
    requires !scrape(RedirNormalized(records[|records| - 1].resolvedUrl)).Scraped?
    ensures RecoverAll(t, records, scrape, now) == RecoverAll(t, records[..|records| - 1], scrape, now)
  {
  }

  /** The last record written back: its scraped record is stored under the scraped key, as a
      live deal. */
  lemma RecoveredRowStored(t: Tables, records: seq<NoisyRecord>, scrape: Scrape, now: int)
    requires records != []
    requires scrape(RedirNormalized(records[|records| - 1].resolvedUrl)).Scraped?
    ensures var d := scrape(RedirNormalized(records[|records| - 1].resolvedUrl)).data;
      var row := RecoverAll(t, records, scrape, now).0.deals[ResolvedKey(d)];
      row.title == d.title && row.source == LIVE && row.resolvedUrl == d.url
  {
    var d := scrape(RedirNormalized(records[|records| - 1].resolvedUrl)).data;
    UpsertWritesRecord(RecoverAll(t, records[..|records| - 1], scrape, now).0, d, LIVE, now);
  }

  lemma RecoverAllNext(t: Tables, records: seq<NoisyRecord>, i: nat, scrape: Scrape, now: int)
    requires i < |records|
    ensures var prev := RecoverAll(t, records[..i], scrape, now);
      var result := scrape(RedirNormalized(records[i].resolvedUrl));
      RecoverAll(t, records[..i + 1], scrape, now) ==
        if result.Scraped? then (Upsert(prev.0, result.data, LIVE, now), prev.1 + if TitleRecovered(result.data.title) then 1 else 0)
        else prev
  {
    assert records[..i + 1][..i] == records[..i];
  }

  /** The loop of `recover_data` on an open store. */
  method RetryRecords(db: StorageManager, records: seq<NoisyRecord>, scrape: Scrape, now: int) returns (recovered: nat)
    modifies db
    ensures (db.State(), recovered) == RecoverAll(old(db.State()), records, scrape, now)
  {
    ghost var start := db.State();
    recovered := 0;
    for i := 0 to |records|
      invariant (db.State(), recovered) == RecoverAll(start, records[..i], scrape, now)
    {
      RecoverAllNext(start, records, i, scrape, now);
      var url := records[i].resolvedUrl;
      if EndsWith(url, "/redir") {
        url := Replace(url, "/redir", "");
      } else if Contains(url, "/redir?") {
        url := Replace(url, "/redir?", "?");
      }
      assert url == RedirNormalized(records[i].resolvedUrl);
      var result := scrape(url);
      if result.Scraped? {
        var _ := db.UpsertLiveDeal(result.data, LIVE, now);
        if TitleRecovered(result.data.title) {
          recovered := recovered + 1;
        }
      }
    }
    assert records[..|records|] == records;
  }

  /** `recover_data` on the file, whose rows are met in the order `order`, each key of the deals
      table once. The records are exactly the noisy rows, each once. With no noisy row it stops
      at once; otherwise every selected record is retried and the counter is the number
      whose re-scrape succeeds with a title other than the two generic ones. */
  method RecoverData(file: Tables, order: seq<string>, scrape: Scrape, now: int)
    returns (records: seq<NoisyRecord>, recovered: nat, file': Tables)
    requires NoDuplicates(order) && forall k :: k in order <==> k in file.deals
    ensures records == SelectNoisy(file, order)
    ensures forall x :: x in records <==>
      x.resolvedId in file.deals && Noisy(file.deals[x.resolvedId]) && x.resolvedUrl == file.deals[x.resolvedId].resolvedUrl
    ensures forall a, b :: 0 <= a < b < |records| ==> records[a].resolvedId != records[b].resolvedId
    ensures records == [] ==> recovered == 0 && file' == Cleanup(file, DEFAULT_RETENTION_HOURS, now)
    ensures (file', recovered) == RecoverAll(Cleanup(file, DEFAULT_RETENTION_HOURS, now), records, scrape, now)
    ensures recovered == CountRecovered(records, scrape) && recovered <= |records|
  {
    var db := new StorageManager(file, now);
    ghost var start := db.State();
    records := SelectNoisy(db.State(), order);
    SelectReadsDeals(file, start, order);
    RecoverAllCounts(start, records, scrape, now);
    if records == [] {
      recovered := 0;
      file' := db.State();
      return;
    }
    recovered := RetryRecords(db, records, scrape, now);
    file' := db.State();
  }
}
