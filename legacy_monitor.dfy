/** The older live monitor of `live_monitor.py`. It shares the store and the feed helpers with
    the current monitor and differs from it in observable ways: there is no title recovery and no
    comment-to-node resolution, alerts are logged whatever the notifier reports, the trending
    clock starts at the start-up time, the action string falls back on the icon's class, rows
    keep no `/redir` normalisation, and no error ever restarts the session. */
module LegacyMonitor {
  import opened Wrappers
  import opened Text
  import opened Records
  import opened Storage
  import opened Feed
  import Monitor

  /** The action strings the class mapping can produce. */
  const CLASS_ACTIONS: set<string> := {"Post", "Comment", "Vote Up", "Vote Down", "Unknown"}

  /** The action derived from an icon's class attribute, first matching class wins. */
  function ClassAction(cls: string): (a: string)
    ensures a in CLASS_ACTIONS
    ensures Contains(cls, "fa-file") ==> a == "Post"
    ensures a == "Unknown" ==>
      !Contains(cls, "fa-file") && !Contains(cls, "fa-comment") && !Contains(cls, "fa-plus") && !Contains(cls, "fa-minus")
  {
    if Contains(cls, "fa-file") then "Post"
    else if Contains(cls, "fa-comment") then "Comment"
    else if Contains(cls, "fa-plus") then "Vote Up"
    else if Contains(cls, "fa-minus") then "Vote Down"
    else "Unknown"
  }

  /** The action column: "Unknown" without an icon, the icon's non-empty title, or the class
      mapping. None when the icon has neither a title nor a class, where the membership test on
      the missing class raises and the row is abandoned. */
  function ActionString(icon: Option<Icon>): (r: Option<string>)
    ensures icon.None? ==> r == Some("Unknown")
    ensures icon.Some? && Truthy(icon.value.title) ==> r == icon.value.title
    ensures r.None? <==> icon.Some? && !Truthy(icon.value.title) && icon.value.cls.None?
    ensures r.Some? ==> r.value in CLASS_ACTIONS || (icon.Some? && icon.value.title == r)
  {
    match icon
    case None => Some("Unknown")
    case Some(i) =>
      if Truthy(i.title) then i.title
      else if i.cls.None? then None
      else Some(ClassAction(i.cls.value))
  }

  /** The row body of the legacy `run`. Every failure (an unusable icon, a missing link, a
      missing href, a non-"Deal" type) happens before the url is claimed, so such a row is simply
      skipped. The url is handed over as it stands, and the event carries no title. */
  function RowCandidate(row: LiveRow, now: int): (a: Monitor.RowAction)
    ensures !a.Skip? <==> ActionString(row.icon).Some? && Monitor.IsDealRow(row)
    ensures !a.Skip? ==> a.Handle? && a.url == AbsoluteUrl(row.link.value.href.value) && a.target == a.url
    ensures a.Handle? ==> a.event.title == None && a.event.originalUrl == a.url && a.event.action == ActionString(row.icon).value
  {
    var action := ActionString(row.icon);
    if action.None? || !Monitor.IsDealRow(row) then Monitor.Skip
    else
      var url := AbsoluteUrl(row.link.value.href.value);
      var timeStr := Strip(row.timeText);
      Monitor.Handle(url, url, EventData(None, url, ParseRelativeTime(timeStr, now), timeStr, Strip(row.userText), action.value, "Deal"))
  }

  function RowCandidates(rows: seq<LiveRow>, now: int): (acts: seq<Monitor.RowAction>)
    ensures |acts| == |rows| && forall i :: 0 <= i < |rows| ==> acts[i] == RowCandidate(rows[i], now)
  {
    seq(|rows|, i requires 0 <= i < |rows| => RowCandidate(rows[i], now))
  }

  /** The legacy row loop: a new url is claimed and handed over; nothing stops the loop, since
      every exception of a row is swallowed. */
  function Scan(seen: set<string>, acts: seq<Monitor.RowAction>): (r: Monitor.ScanState)
    ensures !r.fatal
    ensures r.seen == seen + RowUrls(acts)
    decreases |acts|
  {
    if acts == [] then Monitor.ScanState(seen, [], false)
    else
      var prev := Scan(seen, acts[..|acts| - 1]);
      var a := acts[|acts| - 1];
      RowUrlsNext(acts);
      if a.Skip? || a.url in prev.seen then prev
      else Monitor.ScanState(prev.seen + {a.url}, prev.handled + [a.url], false)
  }

  /** The urls of the rows that are not skipped. */
  function RowUrls(acts: seq<Monitor.RowAction>): set<string> {
    set i | 0 <= i < |acts| && !acts[i].Skip? :: acts[i].url
  }

  lemma RowUrlsNext(acts: seq<Monitor.RowAction>)
    requires acts != []
    ensures var a := acts[|acts| - 1];
      RowUrls(acts) == RowUrls(acts[..|acts| - 1]) + (if a.Skip? then {} else {a.url})
  {
    var n := |acts| - 1;
    var a := acts[n];
    forall u | u in RowUrls(acts) ensures u in RowUrls(acts[..n]) + (if a.Skip? then {} else {a.url}) {
      var i :| 0 <= i < |acts| && !acts[i].Skip? && acts[i].url == u;
      if i < n {
        assert acts[..n][i] == acts[i];
      }
    }
    forall u | u in RowUrls(acts[..n]) ensures u in RowUrls(acts) {
      var i :| 0 <= i < n && !acts[..n][i].Skip? && acts[..n][i].url == u;
      assert acts[i] == acts[..n][i];
    }
  }

  /** The tables after the legacy row loop over `acts` from `t`: each row handed over is
      processed on the tables the rows before it left. Alerts are never lost. */
  function ScanTables(t: Tables, seen: set<string>, acts: seq<Monitor.RowAction>, scrape: Scrape, now: int): (r: Tables)
    ensures t.alerts <= r.alerts
    decreases |acts|
  {
    if acts == [] then t
    else
      var n := |acts| - 1;
      var prev := ScanTables(t, seen, acts[..n], scrape, now);
      var a := acts[n];
      if a.Handle? && a.url !in Scan(seen, acts[..n]).seen then
        PriorityAlertOnlyAdds(prev, Some(a.event), scrape(a.target), now);
        ProcessDealSpec(prev, Some(a.event), scrape(a.target), now).tables
      else prev
  }

  /** One more row extends the tables of the legacy row loop by one step. */
  lemma ScanTablesNext(t: Tables, seen: set<string>, acts: seq<Monitor.RowAction>, i: nat, scrape: Scrape, now: int)
    requires i < |acts|
    ensures var prev := ScanTables(t, seen, acts[..i], scrape, now); var a := acts[i];
      ScanTables(t, seen, acts[..i + 1], scrape, now) ==
        if a.Handle? && a.url !in Scan(seen, acts[..i]).seen then ProcessDealSpec(prev, Some(a.event), scrape(a.target), now).tables
        else prev
  {
    assert acts[..i + 1][..i] == acts[..i];
  }

  /** Each url is handed over at most once per session, every url handed over was new, and the
      urls added to the seen set are exactly the ones handed over. */
  lemma {:induction false} ScanAtMostOnce(seen: set<string>, acts: seq<Monitor.RowAction>)
    ensures var r := Scan(seen, acts);
      && seen <= r.seen
      && NoDuplicates(r.handled) && |r.handled| <= |acts|
      && (forall u :: u in r.handled ==> u !in seen && u in r.seen)
      && (forall u :: u in r.seen && u !in seen ==> u in r.handled)
    decreases |acts|
  {
    if acts != [] {
      var init := acts[..|acts| - 1];
      ScanAtMostOnce(seen, init);
      var prev := Scan(seen, init);
      var a := acts[|acts| - 1];
      if !a.Skip? && a.url !in prev.seen {
        var h := prev.handled + [a.url];
        forall i, j | 0 <= i < j < |h| ensures h[i] != h[j] {
          if j == |h| - 1 {
            assert h[i] in prev.handled;
          } else {
            assert h[i] == prev.handled[i] && h[j] == prev.handled[j];
          }
        }
      }
    }
  }

  /** One more row extends the scan by one step. */
  lemma ScanNext(seen: set<string>, acts: seq<Monitor.RowAction>, i: nat)
    requires i < |acts|
    ensures var prev := Scan(seen, acts[..i]); var a := acts[i];
      Scan(seen, acts[..i + 1]) ==
        if a.Skip? || a.url in prev.seen then prev
        else Monitor.ScanState(prev.seen + {a.url}, prev.handled + [a.url], false)
  {
    assert acts[..i + 1][..i] == acts[..i];
  }

  /** Legacy `process_deal(url, event_data)`. The notifier's answer plays no part. */
  function ProcessDealSpec(t: Tables, event: Option<EventData>, scraped: ScrapeResult, now: int): Monitor.ProcessResult {
    match scraped
    case Crashed(fatal) => Monitor.ProcessResult(t, Monitor.Raised(fatal), [])
    case ScrapeFailed(_, _) => Monitor.ProcessResult(t, Monitor.Rejected, [])
    case Scraped(d) =>
      var rec := Merge(d, event);
      var t1 := Upsert(t, rec, LIVE, now);
      var key := ResolvedKey(rec);
      if rec.isExpired || !Monitor.WatchedTagMatch(t1, rec.tags) || (key, PRIORITY) in t1.alerts then
        Monitor.ProcessResult(t1, Monitor.Stored(key, rec.url), [])
      else
        Monitor.ProcessResult(RecordAlert(t1, key, PRIORITY), Monitor.Stored(key, rec.url), [Notice(key, PRIORITY)])
  }

  /** A scrape error stores nothing and sends nothing. */
  lemma ScrapeErrorChangesNothing(t: Tables, event: Option<EventData>, scraped: ScrapeResult, now: int)
    requires !scraped.Scraped?
    ensures var r := ProcessDealSpec(t, event, scraped, now);
      r.tables == t && r.sent == [] && (scraped.ScrapeFailed? ==> r.outcome == Monitor.Rejected)
  {
  }

  /** The returned id is the upsert's key for the merged record: a comment id stays a comment
      id, and the title is whatever the merge left. */
  lemma NoResolutionNoRecovery(t: Tables, event: Option<EventData>, d: DealData, now: int)
    ensures var r := ProcessDealSpec(t, event, Scraped(d), now);
      && r.outcome == Monitor.Stored(ResolvedKey(Merge(d, event)), d.url)
      && r.tables.deals == Upsert(t, Merge(d, event), LIVE, now).deals
      && r.tables.deals[ResolvedKey(Merge(d, event))].title == Merge(d, event).title
  {
    UpsertWritesRecord(t, Merge(d, event), LIVE, now);
  }

  /** Every priority notice is logged at once, so the deal counts as alerted afterwards even
      when the notifier failed; an expired deal gets none. */
  lemma PriorityAlertAlwaysLogged(t: Tables, event: Option<EventData>, d: DealData, now: int)
    ensures var rec := Merge(d, event); var key := ResolvedKey(rec);
      var r := ProcessDealSpec(t, event, Scraped(d), now);
      && (r.sent != [] <==> !rec.isExpired && Monitor.WatchedTagMatch(Upsert(t, rec, LIVE, now), rec.tags) && (key, PRIORITY) !in t.alerts)
      && (r.sent != [] ==> r.sent == [Notice(key, PRIORITY)] && (key, PRIORITY) in r.tables.alerts)
      && r.tables.alerts - t.alerts <= {(key, PRIORITY)} && t.alerts <= r.tables.alerts
  {
  }

  /** The legacy trending pass: a candidate whose heat reaches the threshold and that has no
      trending alert gets a notice, and the alert is logged right away. */
  function TrendingAlerts(t: Tables, cands: seq<TrendingDeal>, minHeat: int): (r: (Tables, seq<Notice>))
    decreases |cands|
  {
    if cands == [] then (t, [])
    else
      var prev := TrendingAlerts(t, cands[..|cands| - 1], minHeat);
      var c := cands[|cands| - 1];
      if c.heat >= minHeat && (c.id, TRENDING) !in prev.0.alerts then
        (RecordAlert(prev.0, c.id, TRENDING), prev.1 + [Notice(c.id, TRENDING)])
      else prev
  }

  /** After the legacy pass every candidate at or above the threshold is in the ledger as
      trending, whether or not its notice was delivered, nothing else is added, and the notices
      are exactly those for the qualifying candidates that were not alerted before. */
  lemma {:induction false} TrendingAlertsLedger(t: Tables, cands: seq<TrendingDeal>, minHeat: int)
    ensures var r := TrendingAlerts(t, cands, minHeat);
      && r.0 == t.(alerts := t.alerts + set c | c in cands && c.heat >= minHeat :: (c.id, TRENDING))
      && (forall n :: n in r.1 <==>
            n.alertType == TRENDING && (n.dealId, TRENDING) !in t.alerts
            && exists c :: c in cands && c.heat >= minHeat && c.id == n.dealId)
    decreases |cands|
  {
    if cands != [] {
      var init := cands[..|cands| - 1];
      var c := cands[|cands| - 1];
      TrendingAlertsLedger(t, init, minHeat);
      assert forall x :: x in cands <==> x in init || x == c;
      var prev := TrendingAlerts(t, init, minHeat);
      assert (set x | x in cands && x.heat >= minHeat :: (x.id, TRENDING))
          == (set x | x in init && x.heat >= minHeat :: (x.id, TRENDING))
             + (if c.heat >= minHeat then {(c.id, TRENDING)} else {});
      var r := TrendingAlerts(t, cands, minHeat);
      forall n: Notice | n.alertType == TRENDING && (n.dealId, TRENDING) !in t.alerts
                 && (exists x :: x in cands && x.heat >= minHeat && x.id == n.dealId)
        ensures n in r.1
      {
        var x :| x in cands && x.heat >= minHeat && x.id == n.dealId;
        if x != c {
          assert x in init;
        } else if (c.id, TRENDING) in prev.0.alerts {
          var y :| y in init && y.heat >= minHeat && (y.id, TRENDING) == (c.id, TRENDING);
          assert n == Notice(y.id, TRENDING);
        }
      }
    }
  }

  /** The current monitor runs the trending pass at every poll in the first interval after
      start-up; the legacy one runs none until a whole interval has passed. */
  lemma FirstTrendingCheckLater(start: int, now: int, intervalMinutes: int)
    requires start < now <= start + intervalMinutes * 60
    ensures TrendingDue(now, start - intervalMinutes * 60, intervalMinutes)
    ensures !TrendingDue(now, start, intervalMinutes)
  {
  }

  class LegacyLiveMonitor {
    const db: StorageManager
    var seenRows: set<string>
    var lastTrendingCheck: int
    const minHeatScore: int
    const trendingInterval: int
    const pollInterval: int

    /** `LiveMonitor()` followed by the start of the legacy `run` at clock reading `start`. */
    constructor (db: StorageManager, start: int, minHeatScore: int, trendingInterval: int, pollInterval: int)
      ensures this.db == db && seenRows == {} && lastTrendingCheck == start
      ensures this.minHeatScore == minHeatScore && this.trendingInterval == trendingInterval
      ensures this.pollInterval == pollInterval
    {
      this.db := db;
      seenRows := {};
      lastTrendingCheck := start;
      this.minHeatScore := minHeatScore;
      this.trendingInterval := trendingInterval;
      this.pollInterval := pollInterval;
    }

    /** Legacy `process_deal(url, event_data)`; the notices are what was handed to the notifier. */
    method ProcessDeal(url: string, event: Option<EventData>, scrape: Scrape, now: int)
      returns (outcome: Monitor.DealOutcome, sent: seq<Notice>)
      modifies db
      ensures ProcessDealSpec(old(db.State()), event, scrape(url), now) == Monitor.ProcessResult(db.State(), outcome, sent)
    {
      sent := [];
      var scraped := scrape(url);
      if !scraped.Scraped? {
        outcome := if scraped.Crashed? then Monitor.Raised(scraped.sessionFatal) else Monitor.Rejected;
        return;
      }
      var rec := Merge(scraped.data, event);
      var key := db.UpsertLiveDeal(rec, LIVE, now);
      outcome := Monitor.Stored(key, rec.url);
      if rec.isExpired {
        return;
      }
      var watched := db.GetWatchedTags();
      var tagSet := Monitor.DealTagSet(rec.tags);
      if watched.Failure? || tagSet.None? || watched.value * tagSet.value == {} {
        return;
      }
      var already := db.HasAlerted(key, PRIORITY);
      if !already {
        sent := [Notice(key, PRIORITY)];
        db.LogAlert(key, PRIORITY);
      }
    }

    /** The legacy trending block: the clock is reset, the candidates are read and offered as
        `TrendingAlerts` says. */
    method TrendingCheck(now: int) returns (candidates: seq<TrendingDeal>, sent: seq<Notice>)
      modifies this, db
      ensures lastTrendingCheck == now && seenRows == old(seenRows)
      ensures IdsOf(candidates) == TrendingIds(old(db.deals), now, Monitor.TRENDING_WINDOW_HOURS, minHeatScore)
      ensures forall c :: c in candidates ==> c.heat >= minHeatScore
      ensures (db.State(), sent) == TrendingAlerts(old(db.State()), candidates, minHeatScore)
    {
      lastTrendingCheck := now;
      candidates := db.GetTrendingDeals(Monitor.TRENDING_WINDOW_HOURS, -1, minHeatScore, now);
      sent := [];
      var i := 0;
      while i < |candidates|
        invariant 0 <= i <= |candidates|
        invariant (db.State(), sent) == TrendingAlerts(old(db.State()), candidates[..i], minHeatScore)
        invariant lastTrendingCheck == now && seenRows == old(seenRows)
      {
        var c := candidates[i];
        assert candidates[..i + 1][..i] == candidates[..i];
        var already := db.HasAlerted(c.id, TRENDING);
        if c.heat >= minHeatScore && !already {
          sent := sent + [Notice(c.id, TRENDING)];
          db.LogAlert(c.id, TRENDING);
        }
        i := i + 1;
      }
      assert candidates[..i] == candidates;
    }

    /** The legacy row loop of one poll over the top rows. */
    method ScanFeed(rows: seq<LiveRow>, now: int, scrape: Scrape) returns (handled: seq<string>)
      modifies this, db
      ensures Scan(old(seenRows), RowCandidates(TopRows(rows), now)) == Monitor.ScanState(seenRows, handled, false)
      ensures db.State() == ScanTables(old(db.State()), old(seenRows), RowCandidates(TopRows(rows), now), scrape, now)
      ensures lastTrendingCheck == old(lastTrendingCheck)
      ensures old(db.alerts) <= db.alerts
    {
      var acts := RowCandidates(TopRows(rows), now);
      handled := ScanRows(acts, scrape, now);
    }

    /** The row loop over the row decisions. */
    method ScanRows(acts: seq<Monitor.RowAction>, scrape: Scrape, now: int) returns (handled: seq<string>)
      requires forall i :: 0 <= i < |acts| ==> !acts[i].Claim?
      modifies this, db
      ensures Scan(old(seenRows), acts) == Monitor.ScanState(seenRows, handled, false)
      ensures db.State() == ScanTables(old(db.State()), old(seenRows), acts, scrape, now)
      ensures lastTrendingCheck == old(lastTrendingCheck)
      ensures old(db.alerts) <= db.alerts
    {
      ghost var seen0 := seenRows;
      ghost var start := db.State();
      handled := [];
      var i := 0;
      while i < |acts|
        invariant 0 <= i <= |acts|
        invariant Scan(seen0, acts[..i]) == Monitor.ScanState(seenRows, handled, false)
        invariant db.State() == ScanTables(start, seen0, acts[..i], scrape, now)
        invariant lastTrendingCheck == old(lastTrendingCheck)
      {
        ScanNext(seen0, acts, i);
        ScanTablesNext(start, seen0, acts, i, scrape, now);
        var a := acts[i];
        if !a.Skip? && a.url !in seenRows {
          seenRows := seenRows + {a.url};
          handled := handled + [a.url];
          HandleRow(a, scrape, now);
        }
        i := i + 1;
      }
      assert acts[..i] == acts;
    }

    /** Legacy `process_deal` for a handled row; any exception it raises is swallowed. */
    method HandleRow(a: Monitor.RowAction, scrape: Scrape, now: int)
      requires a.Handle?
      modifies db
      ensures db.State() == ProcessDealSpec(old(db.State()), Some(a.event), scrape(a.target), now).tables
      ensures old(db.alerts) <= db.alerts
    {
      ghost var before := db.State();
      var _, _ := ProcessDeal(a.target, Some(a.event), scrape, now);
      PriorityAlertOnlyAdds(before, Some(a.event), scrape(a.target), now);
    }

    /** The legacy `run` over a sequence of polls. */
    method Run(polls: seq<Monitor.Poll>, scrape: Scrape) returns (handled: seq<string>)
      modifies this, db
      ensures NoDuplicates(handled)
      ensures forall u :: u in handled ==> u !in old(seenRows) && u in seenRows
      ensures old(seenRows) <= seenRows
      ensures old(db.alerts) <= db.alerts
    {
      handled := [];
      var k := 0;
      while k < |polls|
        invariant 0 <= k <= |polls|
        invariant NoDuplicates(handled)
        invariant forall u :: u in handled ==> u !in old(seenRows) && u in seenRows
        invariant old(seenRows) <= seenRows
        invariant old(db.alerts) <= db.alerts
      {
        var p := polls[k];
        if TrendingDue(p.now, lastTrendingCheck, trendingInterval) {
          ghost var before := db.State();
          var cands, _ := TrendingCheck(p.now);
          TrendingAlertsLedger(before, cands, minHeatScore);
        }
        ghost var seenBefore := seenRows;
        var batch := ScanFeed(p.rows, p.now, scrape);
        ScanAtMostOnce(seenBefore, RowCandidates(TopRows(p.rows), p.now));
        var h := handled + batch;
        forall i, j | 0 <= i < j < |h| ensures h[i] != h[j] {
          if j < |handled| {
            assert h[i] == handled[i] && h[j] == handled[j];
          } else if i >= |handled| {
            assert h[i] == batch[i - |handled|] && h[j] == batch[j - |handled|];
          } else {
            assert h[i] in handled && h[j] in batch;
          }
        }
        handled := h;
        k := k + 1;
      }
    }
  }

  /** Legacy processing never removes an alert. */
  lemma PriorityAlertOnlyAdds(t: Tables, event: Option<EventData>, scraped: ScrapeResult, now: int)
    ensures t.alerts <= ProcessDealSpec(t, event, scraped, now).tables.alerts
  {
  }
}
