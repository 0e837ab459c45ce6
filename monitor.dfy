/** The live monitor of `ozbargain/core/monitor.py`: the per-deal decision procedure
    (`process_deal`), the trending alert pass, the scan of the top feed rows and the polling loop
    with its session recovery.

    The scraper and the notifier are the functions `Scrape` and `Send`. The store's title lookup
    may pick any of several rows, so the specifications take the lookup's answer as a parameter
    and say which answers are allowed. */
module Monitor {
  import opened Wrappers
  import opened Text
  import opened Records
  import opened Storage
  import opened Feed

  /** Titles the scraper reports when it hit an interstitial page instead of the deal. */
  const PLACEHOLDER_TITLES: seq<string> := ["OzBargain", "www.ozbargain.com.au", "Performing security verification"]

  const DEFAULT_MIN_HEAT: int := 60
  const DEFAULT_TRENDING_INTERVAL: int := 30
  const DEFAULT_POLL_INTERVAL: int := 5
  const RESTART_DELAY: int := 15
  /** Trending candidates are the live deals of the last day. */
  const TRENDING_WINDOW_HOURS: nat := 24

  // ---------------------------------------------------------------------------------------
  // process_deal

  /** The id the monitor works with before the upsert: the record's id, or the url it was asked
      to process when that id is missing or empty. */
  function WorkingId(d: DealData, url: string): (id: string)
    ensures Truthy(d.id) ==> id == d.id.value
    ensures !Truthy(d.id) ==> id == url
  {
    if Truthy(d.id) then d.id.value else url
  }

  /** The feed title if the event carries a non-empty one. */
  function FeedTitle(event: Option<EventData>): Option<string> {
    if event.Some? then event.value.title else None
  }

  /** Placeholder-title recovery: a non-empty feed title replaces a missing, empty or placeholder
      title; any other record is kept. */
  function RecoverTitle(d: DealData, event: Option<EventData>): (r: DealData)
    ensures Truthy(FeedTitle(event)) && (!Truthy(d.title) || d.title.value in PLACEHOLDER_TITLES) ==>
      r == d.(title := FeedTitle(event))
    ensures !Truthy(FeedTitle(event)) ==> r == d
    ensures Truthy(d.title) && d.title.value !in PLACEHOLDER_TITLES ==> r == d
  {
    var feed := FeedTitle(event);
    if Truthy(feed) && (!Truthy(d.title) || d.title.value in PLACEHOLDER_TITLES) then d.(title := feed) else d
  }

  /** The merge already copies the event's title over the scraped one, so the recovery that
      follows it never changes the record. */
  lemma RecoveryAfterMergeIsNoOp(d: DealData, event: Option<EventData>)
    ensures RecoverTitle(Merge(d, event), event) == Merge(d, event)
  {
  }

  /** The record handed to the upsert: merged, title-recovered, and with a `comment/...` id
      replaced by the parent node the lookup found, if it found one. */
  function Prepared(d: DealData, url: string, event: Option<EventData>, parent: Option<string>): DealData {
    var m := RecoverTitle(Merge(d, event), event);
    if StartsWith(WorkingId(m, url), "comment/") && Truthy(parent) then m.(id := parent) else m
  }

  /** The answers the title lookup may give for a scrape: it is consulted only for a scraped
      record whose working id is a comment id, and then answers as `LookupAllowed` says. */
  predicate ParentAllowed(t: Tables, url: string, event: Option<EventData>, scraped: ScrapeResult, parent: Option<string>) {
    if scraped.Scraped? && StartsWith(WorkingId(RecoverTitle(Merge(scraped.data, event), event), url), "comment/")
    then LookupAllowed(t.deals, RecoverTitle(Merge(scraped.data, event), event).title, parent)
    else parent == None
  }

  /** The tags of a record as `set(deal_data.get("tags", []))` sees them. A scalar is read as a
      value `set` cannot iterate (a number or None), where the call raises and the result is
      None; no scraper ever yields a scalar, and a string, whose characters `set` would give,
      is not modelled. */
  function DealTagSet(tags: Tags): (r: Option<set<string>>)
    ensures tags.TagList? ==> r == Some(set x | x in tags.items)
    ensures tags.TagsAbsent? ==> r == Some({})
  {
    match tags
    case TagList(items) => Some(set x | x in items)
    case TagsAbsent => Some({})
    case TagScalar(_, _) => None
  }

  /** Some watched tag is among the deal's tags, both lists having been read without error. */
  predicate WatchedTagMatch(t: Tables, tags: Tags) {
    WatchedTags(t).Success? && DealTagSet(tags).Some? && WatchedTags(t).value * DealTagSet(tags).value != {}
  }

  /** What `process_deal` ends with: `(None, None)` after a scrape error, the stored key and the
      record's url, or an exception escaping from the scraper. */
  datatype DealOutcome = Rejected | Stored(id: string, url: string) | Raised(fatal: bool)

  /** The new tables, the outcome, and the notices handed to the notifier. */
  datatype ProcessResult = ProcessResult(tables: Tables, outcome: DealOutcome, sent: seq<Notice>)

  /** `process_deal(url, event_data)` on the tables `t`, given what the scraper returns for `url`
      and what the title lookup answered. */
  function ProcessDealSpec(t: Tables, url: string, event: Option<EventData>, scraped: ScrapeResult,
                           parent: Option<string>, send: Send, now: int): ProcessResult
  {
    match scraped
    case Crashed(fatal) => ProcessResult(t, Raised(fatal), [])
    case ScrapeFailed(_, _) => ProcessResult(t, Rejected, [])
    case Scraped(d) =>
      var rec := Prepared(d, url, event, parent);
      var alerted := PriorityStep(Upsert(t, rec, LIVE, now), rec, send);
      ProcessResult(alerted.0, Stored(ResolvedKey(rec), rec.url), alerted.1)
  }

  /** The priority-alert tail of `process_deal` on the tables `t1` that already hold the stored
      record: a live deal with a watched tag that has no priority alert yet is offered to the
      notifier, and the alert is logged only when the notifier reports success. */
  function PriorityStep(t1: Tables, rec: DealData, send: Send): (Tables, seq<Notice>) {
    var key := ResolvedKey(rec);
    if rec.isExpired || !WatchedTagMatch(t1, rec.tags) || (key, PRIORITY) in t1.alerts then (t1, [])
    else
      var n := Notice(key, PRIORITY);
      (if send(n) then RecordAlert(t1, key, PRIORITY) else t1, [n])
  }

  /** A scrape error or an escaping exception leaves the store as it was and sends nothing. */
  lemma ScrapeErrorChangesNothing(t: Tables, url: string, event: Option<EventData>, scraped: ScrapeResult,
                                  parent: Option<string>, send: Send, now: int)
    requires !scraped.Scraped?
    ensures var r := ProcessDealSpec(t, url, event, scraped, parent, send, now);
      r.tables == t && r.sent == [] && (scraped.ScrapeFailed? ==> r.outcome == Rejected)
  {
  }

  /** A scraped deal is always upserted, under the prepared record's key, which is returned. */
  lemma ScrapedDealIsStored(t: Tables, url: string, event: Option<EventData>, d: DealData,
                            parent: Option<string>, send: Send, now: int)
    ensures var rec := Prepared(d, url, event, parent); var key := ResolvedKey(rec);
      var r := ProcessDealSpec(t, url, event, Scraped(d), parent, send, now);
      && r.outcome == Stored(key, d.url)
      && r.tables.deals == Upsert(t, rec, LIVE, now).deals
      && r.tables.snapshots == Upsert(t, rec, LIVE, now).snapshots
  {
  }

  /** A comment id is replaced by the parent node exactly when the lookup found one; otherwise
      the record is stored under its own key. */
  lemma CommentResolution(t: Tables, url: string, event: Option<EventData>, d: DealData,
                          parent: Option<string>, send: Send, now: int)
    requires ParentAllowed(t, url, event, Scraped(d), parent)
    ensures var m := Merge(d, event);
      var r := ProcessDealSpec(t, url, event, Scraped(d), parent, send, now);
      && (StartsWith(WorkingId(m, url), "comment/") && Truthy(parent) ==>
            r.outcome.id == parent.value && IsNodeId(parent.value) && parent.value in t.deals)
      && (!(StartsWith(WorkingId(m, url), "comment/") && Truthy(parent)) ==> r.outcome.id == ResolvedKey(m))
  {
    RecoveryAfterMergeIsNoOp(d, event);
    var m := Merge(d, event);
    if StartsWith(WorkingId(m, url), "comment/") {
      LookupIsNode(t.deals, m.title, parent);
    }
  }

  /** An expired deal is stored but no priority alert is evaluated for it. */
  lemma ExpiredDealNoAlert(t: Tables, url: string, event: Option<EventData>, d: DealData,
                           parent: Option<string>, send: Send, now: int)
    requires d.isExpired
    ensures var r := ProcessDealSpec(t, url, event, Scraped(d), parent, send, now);
      r.sent == [] && r.tables == Upsert(t, Prepared(d, url, event, parent), LIVE, now)
  {
  }

  /** A priority notice goes out only for a watched-tag match not yet alerted, and the alert is
      logged exactly when the notifier reports success. */
  lemma PriorityAlertRule(t: Tables, url: string, event: Option<EventData>, d: DealData,
                          parent: Option<string>, send: Send, now: int)
    ensures var rec := Prepared(d, url, event, parent); var key := ResolvedKey(rec);
      var t1 := Upsert(t, rec, LIVE, now);
      var r := ProcessDealSpec(t, url, event, Scraped(d), parent, send, now);
      && (r.sent != [] <==> !rec.isExpired && WatchedTagMatch(t1, rec.tags) && (key, PRIORITY) !in t.alerts)
      && (r.sent != [] ==> r.sent == [Notice(key, PRIORITY)])
      && (r.tables.alerts == t.alerts + {(key, PRIORITY)} <==> (r.sent != [] && send(Notice(key, PRIORITY))) || (key, PRIORITY) in t.alerts)
      && r.tables.alerts - t.alerts <= {(key, PRIORITY)}
  {
  }

  /** With the `watched_tags` schema this store creates, no priority alert can ever fire. */
  lemma NoPriorityAlertWithoutActiveColumn(t: Tables, url: string, event: Option<EventData>, scraped: ScrapeResult,
                                           parent: Option<string>, send: Send, now: int)
    requires !t.hasActiveColumn
    ensures var r := ProcessDealSpec(t, url, event, scraped, parent, send, now); r.sent == [] && r.tables.alerts == t.alerts
  {
  }

  /** On a store whose `watched_tags` table has the `is_active` column, a watched tag does its job:
      once it is added, a live deal carrying it that has no priority alert yet is notified. */
  lemma PriorityAlertWithActiveColumn(t: Tables, tag: string, url: string, event: Option<EventData>, d: DealData,
                                      parent: Option<string>, send: Send, now: int)
    requires t.hasActiveColumn
    requires var rec := Prepared(d, url, event, parent);
      !rec.isExpired && rec.tags.TagList? && tag in rec.tags.items && (ResolvedKey(rec), PRIORITY) !in t.alerts
    ensures var rec := Prepared(d, url, event, parent);
      ProcessDealSpec(AddTag(t, tag), url, event, Scraped(d), parent, send, now).sent == [Notice(ResolvedKey(rec), PRIORITY)]
  {
    var rec := Prepared(d, url, event, parent);
    var t1 := Upsert(AddTag(t, tag), rec, LIVE, now);
    assert tag in WatchedTags(t1).value * DealTagSet(rec.tags).value;
  }

  /** Processing never removes an alert or a deal row, and it reports a session-fatal error
      exactly when the scraper raised one. */
  lemma ProcessKeepsHistory(t: Tables, url: string, event: Option<EventData>, scraped: ScrapeResult,
                            parent: Option<string>, send: Send, now: int)
    ensures var r := ProcessDealSpec(t, url, event, scraped, parent, send, now);
      && t.alerts <= r.tables.alerts && t.deals.Keys <= r.tables.deals.Keys
      && (r.outcome == Raised(true) <==> scraped == Crashed(true))
  {
  }

  // ---------------------------------------------------------------------------------------
  // Trending pass

  /** The trending pass over the candidates in order: a candidate not yet alerted as trending gets
      one notice, and the alert is logged only when the notifier reports success. Returns the new
      tables and the notices sent. */
  function TrendingAlerts(t: Tables, cands: seq<TrendingDeal>, send: Send): (r: (Tables, seq<Notice>))
    decreases |cands|
  {
    if cands == [] then (t, [])
    else
      var prev := TrendingAlerts(t, cands[..|cands| - 1], send);
      var c := cands[|cands| - 1];
      if (c.id, TRENDING) in prev.0.alerts then prev
      else
        var n := Notice(c.id, TRENDING);
        (if send(n) then RecordAlert(prev.0, c.id, TRENDING) else prev.0, prev.1 + [n])
  }

  /** One more candidate extends the trending pass by one step. */
  lemma TrendingAlertsNext(t: Tables, cands: seq<TrendingDeal>, i: nat, send: Send)
    requires i < |cands|
    ensures var prev := TrendingAlerts(t, cands[..i], send); var c := cands[i];
      TrendingAlerts(t, cands[..i + 1], send) ==
        if (c.id, TRENDING) in prev.0.alerts then prev
        else (if send(Notice(c.id, TRENDING)) then RecordAlert(prev.0, c.id, TRENDING) else prev.0,
              prev.1 + [Notice(c.id, TRENDING)])
  {
    assert cands[..i + 1][..i] == cands[..i];
  }

  /** The alert pairs the trending pass adds: one per candidate whose notice the notifier accepts. */
  function TrendingDelivered(cands: seq<TrendingDeal>, send: Send): set<(string, string)> {
    set c | c in cands && send(Notice(c.id, TRENDING)) :: (c.id, TRENDING)
  }

  /** The delivered pairs of a longer candidate list: those of its prefix and, when delivered,
      the last one's. */
  lemma TrendingDeliveredSnoc(cands: seq<TrendingDeal>, send: Send)
    requires cands != []
    ensures var c := cands[|cands| - 1];
      TrendingDelivered(cands, send) == TrendingDelivered(cands[..|cands| - 1], send)
        + (if send(Notice(c.id, TRENDING)) then {(c.id, TRENDING)} else {})
  {
    var init := cands[..|cands| - 1];
    var c := cands[|cands| - 1];
    assert forall x :: x in cands <==> x in init || x == c;
  }

  /** After the trending pass the ledger holds exactly the old alerts plus the delivered ones,
      and nothing else in the store changes. */
  lemma {:induction false} TrendingAlertsLedger(t: Tables, cands: seq<TrendingDeal>, send: Send)
    ensures TrendingAlerts(t, cands, send).0 == t.(alerts := t.alerts + TrendingDelivered(cands, send))
    decreases |cands|
  {
    if cands != [] {
      var init := cands[..|cands| - 1];
      var c := cands[|cands| - 1];
      TrendingAlertsLedger(t, init, send);
      TrendingDeliveredSnoc(cands, send);
    }
  }

  /** Every trending notice is for a candidate that had no trending alert before the pass, and
      every such candidate gets one. */
  lemma {:induction false} TrendingAlertsNotices(t: Tables, cands: seq<TrendingDeal>, send: Send)
    ensures var sent := TrendingAlerts(t, cands, send).1;
      && (forall n :: n in sent ==>
            n.alertType == TRENDING && (n.dealId, TRENDING) !in t.alerts && exists c :: c in cands && c.id == n.dealId)
      && (forall c :: c in cands && (c.id, TRENDING) !in t.alerts ==> Notice(c.id, TRENDING) in sent)
    decreases |cands|
  {
    if cands != [] {
      var init := cands[..|cands| - 1];
      var c := cands[|cands| - 1];
      TrendingAlertsNotices(t, init, send);
      TrendingAlertsLedger(t, init, send);
      var prev := TrendingAlerts(t, init, send);
      assert forall x :: x in cands <==> x in init || x == c;
      if (c.id, TRENDING) in prev.0.alerts && (c.id, TRENDING) !in t.alerts {
        var c' :| c' in init && send(Notice(c'.id, TRENDING)) && (c'.id, TRENDING) == (c.id, TRENDING);
        assert Notice(c'.id, TRENDING) in prev.1;
      }
    }
  }

  /** With distinct candidates no trending notice is sent twice in one pass. */
  lemma {:induction false} TrendingAlertsOnce(t: Tables, cands: seq<TrendingDeal>, send: Send)
    requires DistinctIds(cands)
    ensures var sent := TrendingAlerts(t, cands, send).1; forall i, j :: 0 <= i < j < |sent| ==> sent[i] != sent[j]
    decreases |cands|
  {
    if cands != [] {
      var init := cands[..|cands| - 1];
      var c := cands[|cands| - 1];
      assert DistinctIds(init) by {
        forall i, j | 0 <= i < j < |init| ensures init[i].id != init[j].id {
          assert init[i] == cands[i] && init[j] == cands[j];
        }
      }
      TrendingAlertsOnce(t, init, send);
      TrendingAlertsNotices(t, init, send);
      var prev := TrendingAlerts(t, init, send);
      forall n | n in prev.1 ensures n.dealId != c.id {
        var x :| x in init && x.id == n.dealId;
        var i :| 0 <= i < |init| && init[i] == x;
        assert cands[i] == x;
      }
      var sent := TrendingAlerts(t, cands, send).1;
      if sent != prev.1 {
        forall i, j | 0 <= i < j < |sent| ensures sent[i] != sent[j] {
          if j == |sent| - 1 {
            assert sent[i] in prev.1;
          } else {
            assert sent[i] == prev.1[i] && sent[j] == prev.1[j];
          }
        }
      }
    }
  }

  // ---------------------------------------------------------------------------------------
  // Feed rows

  /** What the row loop makes of one row, before the seen set is consulted: skip it, claim its
      url and then fail on it, or claim its url and hand the normalised url and the event to
      `process_deal`. */
  datatype RowAction = Skip | Claim(url: string) | Handle(url: string, target: string, event: EventData)

  /** The event dict the row loop builds for a row. */
  function RowEvent(row: LiveRow, title: string, action: string, url: string, now: int): (e: EventData)
    ensures e.title == Some(title) && e.originalUrl == url && e.action == action && e.kind == "Deal"
    ensures e.timestamp == ParseRelativeTime(Strip(row.timeText), now)
    ensures e.timeStr == Strip(row.timeText) && e.user == Strip(row.userText)
  {
    var timeStr := Strip(row.timeText);
    EventData(Some(title), url, ParseRelativeTime(timeStr, now), timeStr, Strip(row.userText), action, "Deal")
  }

  /** The row is a "Deal" row whose subject link has an href. */
  predicate IsDealRow(row: LiveRow) {
    Strip(row.typeText) == "Deal" && row.link.Some? && row.link.value.href.Some?
  }

  /** The row body of `run`: the type must be "Deal" and the subject link must exist and have an
      href (a missing href fails the row before anything else happens). The url made absolute is
      then claimed, unless it was seen. A row without an action icon fails after its url was
      claimed, since the attribute read waits for an element that is not there. */
  function RowCandidate(row: LiveRow, now: int): (a: RowAction)
    ensures !a.Skip? <==> IsDealRow(row)
    ensures !a.Skip? ==> a.url == AbsoluteUrl(row.link.value.href.value)
    ensures a.Handle? <==> IsDealRow(row) && row.icon.Some?
    ensures a.Handle? ==> a.target == NodeRedirNormalized(a.url) && a.event.originalUrl == a.url
    ensures a.Handle? ==> a.event == RowEvent(row, Strip(row.link.value.text),
      if Truthy(row.icon.value.title) then row.icon.value.title.value else "Unknown", a.url, now)
  {
    if !IsDealRow(row) then Skip
    else
      var url := AbsoluteUrl(row.link.value.href.value);
      if row.icon.None? then Claim(url)
      else
        var icon := row.icon.value;
        var action := if Truthy(icon.title) then icon.title.value else "Unknown";
        Handle(url, NodeRedirNormalized(url), RowEvent(row, Strip(row.link.value.text), action, url, now))
  }

  /** The row decisions for a list of rows. */
  function RowCandidates(rows: seq<LiveRow>, now: int): (acts: seq<RowAction>)
    ensures |acts| == |rows| && forall i :: 0 <= i < |rows| ==> acts[i] == RowCandidate(rows[i], now)
  {
    seq(|rows|, i requires 0 <= i < |rows| => RowCandidate(rows[i], now))
  }

  /** The session seen set, the row urls claimed and handed over (in order; `process_deal`
      receives their normalised targets), and whether a session-fatal error ended the scan. */
  datatype ScanState = ScanState(seen: set<string>, handled: seq<string>, fatal: bool)

  /** One row of the loop: skipped, or its url added to the seen set and (if it is handled)
      handed over; the scan stops when that scrape is session-fatal. */
  function ScanStep(prev: ScanState, a: RowAction, scrape: Scrape): ScanState {
    if a.Skip? || a.url in prev.seen then prev
    else if a.Claim? then prev.(seen := prev.seen + {a.url})
    else ScanState(prev.seen + {a.url}, prev.handled + [a.url], scrape(a.target) == Crashed(true))
  }

  /** The row loop over the row decisions `acts`, stopping at the first session-fatal scrape. */
  function Scan(seen: set<string>, acts: seq<RowAction>, scrape: Scrape): ScanState
    decreases |acts|
  {
    if acts == [] then ScanState(seen, [], false)
    else
      var prev := Scan(seen, acts[..|acts| - 1], scrape);
      if prev.fatal then prev else ScanStep(prev, acts[|acts| - 1], scrape)
  }

  /** Two distinct row urls with one normalised target, `base` and `base/redir` say
      (`Feed.DistinctUrlsShareTarget`), are both handed over, so `process_deal` sees that deal
      url twice. */
  lemma SameTargetHandledTwice(seen: set<string>, a: RowAction, b: RowAction, scrape: Scrape)
    requires a.Handle? && b.Handle? && a.url != b.url && a.url !in seen && b.url !in seen
    requires a.target == b.target && scrape(a.target) != Crashed(true)
    ensures Scan(seen, [a, b], scrape).handled == [a.url, b.url]
  {
    assert [a, b][..1] == [a];
    assert [a][..0] == [];
    assert Scan(seen, [], scrape) == ScanState(seen, [], false);
    assert Scan(seen, [a], scrape) == ScanState(seen + {a.url}, [a.url], false);
  }

  /** Each row url is claimed at most once: the handled row urls are distinct, none was seen
      before, all are seen after, the seen set only grows, and at most one url per row is handed
      over. Their normalised targets need not be distinct (`SameTargetHandledTwice`). */
  lemma {:induction false} ScanAtMostOnce(seen: set<string>, acts: seq<RowAction>, scrape: Scrape)
    ensures var r := Scan(seen, acts, scrape);
      && seen <= r.seen
      && NoDuplicates(r.handled) && |r.handled| <= |acts|
      && (forall u :: u in r.handled ==> u !in seen && u in r.seen)
    decreases |acts|
  {
    if acts != [] {
      var init := acts[..|acts| - 1];
      ScanAtMostOnce(seen, init, scrape);
      var prev := Scan(seen, init, scrape);
      var a := acts[|acts| - 1];
      if !prev.fatal && a.Handle? && a.url !in prev.seen {
        var h := prev.handled + [a.url];
        forall i, j | 0 <= i < j < |h| ensures h[i] != h[j] {
          if j == |h| - 1 {
            assert h[i] in prev.handled;
          } else {
            assert h[i] == prev.handled[i] && h[j] == prev.handled[j];
          }
        }
      }
    }
  }

  /** Every url the scan adds to the seen set is claimed by one of the row decisions. */
  lemma {:induction false} ScanSeenFromActions(seen: set<string>, acts: seq<RowAction>, scrape: Scrape)
    ensures forall u :: u in Scan(seen, acts, scrape).seen - seen ==>
      exists a :: a in acts && !a.Skip? && a.url == u
    decreases |acts|
  {
    if acts != [] {
      var init := acts[..|acts| - 1];
      ScanSeenFromActions(seen, init, scrape);
      var last := acts[|acts| - 1];
      forall u | u in Scan(seen, acts, scrape).seen - seen ensures exists a :: a in acts && !a.Skip? && a.url == u {
        if u in Scan(seen, init, scrape).seen {
          assert u in Scan(seen, init, scrape).seen - seen;
          var a :| a in init && !a.Skip? && a.url == u;
          assert a in acts;
        } else {
          assert last in acts && !last.Skip? && last.url == u;
        }
      }
    }
  }

  /** Every url the row loop adds to the seen set is the absolute href of a "Deal" row. */
  lemma SeenUrlsComeFromDealRows(seen: set<string>, rows: seq<LiveRow>, now: int, scrape: Scrape)
    ensures forall u :: u in Scan(seen, RowCandidates(rows, now), scrape).seen - seen ==>
      exists row :: row in rows && IsDealRow(row) && u == AbsoluteUrl(row.link.value.href.value)
  {
    var acts := RowCandidates(rows, now);
    ScanSeenFromActions(seen, acts, scrape);
    forall u | u in Scan(seen, acts, scrape).seen - seen
      ensures exists row :: row in rows && IsDealRow(row) && u == AbsoluteUrl(row.link.value.href.value)
    {
      var a :| a in acts && !a.Skip? && a.url == u;
      var i :| 0 <= i < |acts| && acts[i] == a;
      assert rows[i] in rows;
    }
  }

  /** Once a session-fatal error has stopped the scan, further rows change nothing. */
  lemma {:induction false} ScanFatalSticky(seen: set<string>, acts: seq<RowAction>, k: nat, scrape: Scrape)
    requires k <= |acts| && Scan(seen, acts[..k], scrape).fatal
    ensures Scan(seen, acts, scrape) == Scan(seen, acts[..k], scrape)
    decreases |acts|
  {
    if k < |acts| {
      assert acts[..|acts| - 1][..k] == acts[..k];
      ScanFatalSticky(seen, acts[..|acts| - 1], k, scrape);
    } else {
      assert acts[..k] == acts;
    }
  }

  /** One more row extends a scan that has not stopped by one step. */
  lemma ScanNext(seen: set<string>, acts: seq<RowAction>, i: nat, scrape: Scrape)
    requires i < |acts| && !Scan(seen, acts[..i], scrape).fatal
    ensures Scan(seen, acts[..i + 1], scrape) == ScanStep(Scan(seen, acts[..i], scrape), acts[i], scrape)
  {
    assert acts[..i + 1][..i] == acts[..i];
  }

  /** Whether the row loop, in state `prev`, hands the row decision `a` to `process_deal`. */
  predicate HandsOver(prev: ScanState, a: RowAction) {
    !prev.fatal && a.Handle? && a.url !in prev.seen
  }

  /** The tables after the row loop over `acts` from `t`, given the title lookup's answer for
      each row (only the answers for rows handed over are used): each row handed over is
      processed on the tables the rows before it left. Alerts and deal rows are never lost. */
  function ScanTables(t: Tables, seen: set<string>, acts: seq<RowAction>, parents: seq<Option<string>>,
                      scrape: Scrape, send: Send, now: int): (r: Tables)
    requires |parents| == |acts|
    ensures t.alerts <= r.alerts && t.deals.Keys <= r.deals.Keys
    decreases |acts|
  {
    if acts == [] then t
    else
      var n := |acts| - 1;
      var prev := ScanTables(t, seen, acts[..n], parents[..n], scrape, send, now);
      var a := acts[n];
      if HandsOver(Scan(seen, acts[..n], scrape), a) then
        ProcessKeepsHistory(prev, a.target, Some(a.event), scrape(a.target), parents[n], send, now);
        ProcessDealSpec(prev, a.target, Some(a.event), scrape(a.target), parents[n], send, now).tables
      else prev
  }

  /** The lookup answers the row loop may have been given: for each row handed over, one that
      `ParentAllowed` permits on the tables at that point. */
  predicate ParentsAllowed(t: Tables, seen: set<string>, acts: seq<RowAction>, parents: seq<Option<string>>,
                           scrape: Scrape, send: Send, now: int)
    requires |parents| == |acts|
    decreases |acts|
  {
    if acts == [] then true
    else
      var n := |acts| - 1;
      && ParentsAllowed(t, seen, acts[..n], parents[..n], scrape, send, now)
      && (HandsOver(Scan(seen, acts[..n], scrape), acts[n]) ==>
            ParentAllowed(ScanTables(t, seen, acts[..n], parents[..n], scrape, send, now),
                          acts[n].target, Some(acts[n].event), scrape(acts[n].target), parents[n]))
  }

  /** One more row extends the tables and the lookup answers of the row loop by one step. */
  lemma ScanTablesNext(t: Tables, seen: set<string>, acts: seq<RowAction>, parents: seq<Option<string>>, i: nat,
                       p: Option<string>, scrape: Scrape, send: Send, now: int)
    requires i < |acts| && |parents| == i
    ensures var prev := ScanTables(t, seen, acts[..i], parents, scrape, send, now);
      var handsOver := HandsOver(Scan(seen, acts[..i], scrape), acts[i]);
      && ScanTables(t, seen, acts[..i + 1], parents + [p], scrape, send, now) ==
           (if handsOver then ProcessDealSpec(prev, acts[i].target, Some(acts[i].event), scrape(acts[i].target), p, send, now).tables
            else prev)
      && (ParentsAllowed(t, seen, acts[..i + 1], parents + [p], scrape, send, now) <==>
           ParentsAllowed(t, seen, acts[..i], parents, scrape, send, now)
           && (handsOver ==> ParentAllowed(prev, acts[i].target, Some(acts[i].event), scrape(acts[i].target), p)))
  {
    assert acts[..i + 1][..i] == acts[..i];
    assert (parents + [p])[..i] == parents;
  }

  /** Once a session-fatal error has stopped the scan, further rows change no table and need no
      lookup answer. */
  lemma {:induction false} ScanTablesFatalSticky(t: Tables, seen: set<string>, acts: seq<RowAction>,
                                                parents: seq<Option<string>>, k: nat, scrape: Scrape, send: Send, now: int)
    requires k <= |acts| && |parents| == |acts| && Scan(seen, acts[..k], scrape).fatal
    ensures ScanTables(t, seen, acts, parents, scrape, send, now) == ScanTables(t, seen, acts[..k], parents[..k], scrape, send, now)
    ensures ParentsAllowed(t, seen, acts[..k], parents[..k], scrape, send, now) ==> ParentsAllowed(t, seen, acts, parents, scrape, send, now)
    decreases |acts|
  {
    if k < |acts| {
      var n := |acts| - 1;
      assert acts[..n][..k] == acts[..k];
      assert parents[..n][..k] == parents[..k];
      ScanTablesFatalSticky(t, seen, acts[..n], parents[..n], k, scrape, send, now);
      ScanFatalSticky(seen, acts[..n], k, scrape);
    } else {
      assert acts[..k] == acts;
      assert parents[..k] == parents;
    }
  }

  /** At the start the trending clock is set one interval back, so the first poll after start-up
      already runs the trending pass. */
  lemma FirstPollChecksTrending(start: int, now: int, intervalMinutes: int)
    requires now > start
    ensures TrendingDue(now, start - intervalMinutes * 60, intervalMinutes)
  {
  }

  // ---------------------------------------------------------------------------------------
  // The monitor object

  /** One turn of the inner loop: the clock reading and the rows the feed shows. */
  datatype Poll = Poll(now: int, rows: seq<LiveRow>)

  class LiveMonitor {
    const db: StorageManager
    var seenRows: set<string>
    var lastTrendingCheck: int
    const minHeatScore: int
    const trendingInterval: int
    const pollInterval: int

    /** `LiveMonitor()` followed by the start of `run`, at clock reading `start`. */
    constructor (db: StorageManager, start: int, minHeatScore: int, trendingInterval: int, pollInterval: int)
      ensures this.db == db && seenRows == {} && lastTrendingCheck == start - trendingInterval * 60
      ensures this.minHeatScore == minHeatScore && this.trendingInterval == trendingInterval
      ensures this.pollInterval == pollInterval
    {
      this.db := db;
      seenRows := {};
      lastTrendingCheck := start - trendingInterval * 60;
      this.minHeatScore := minHeatScore;
      this.trendingInterval := trendingInterval;
      this.pollInterval := pollInterval;
    }

    /** `process_deal(url, event_data)`: `parent` is what the title lookup answered (None when it
        was not consulted). */
    method ProcessDeal(url: string, event: Option<EventData>, scrape: Scrape, send: Send, now: int)
      returns (outcome: DealOutcome, sent: seq<Notice>, ghost parent: Option<string>)
      modifies db
      ensures ParentAllowed(old(db.State()), url, event, scrape(url), parent)
      ensures ProcessDealSpec(old(db.State()), url, event, scrape(url), parent, send, now)
           == ProcessResult(db.State(), outcome, sent)
    {
      parent := None;
      sent := [];
      var scraped := scrape(url);
      if !scraped.Scraped? {
        outcome := if scraped.Crashed? then Raised(scraped.sessionFatal) else Rejected;
        return;
      }
      var m := RecoverTitle(Merge(scraped.data, event), event);
      var dealId := WorkingId(m, url);
      var found: Option<string> := None;
      if StartsWith(dealId, "comment/") {
        found := db.ResolveNodeIdByTitle(m.title);
      }
      parent := found;
      var rec := if StartsWith(dealId, "comment/") && Truthy(found) then m.(id := found) else m;
      var key := db.UpsertLiveDeal(rec, LIVE, now);
      outcome := Stored(key, rec.url);
      sent := AlertIfWatched(rec, key, send);
    }

    /** The priority-alert tail of `process_deal`, after the upsert under `key`. */
    method AlertIfWatched(rec: DealData, key: string, send: Send) returns (sent: seq<Notice>)
      requires key == ResolvedKey(rec)
      modifies db
      ensures (db.State(), sent) == PriorityStep(old(db.State()), rec, send)
    {
      sent := [];
      if rec.isExpired {
        return;
      }
      var watched := db.GetWatchedTags();
      var tagSet := DealTagSet(rec.tags);
      if watched.Failure? || tagSet.None? || watched.value * tagSet.value == {} {
        return;
      }
      var already := db.HasAlerted(key, PRIORITY);
      if !already {
        var n := Notice(key, PRIORITY);
        sent := [n];
        if send(n) {
          db.LogAlert(key, PRIORITY);
        }
      }
    }

    /** The trending block of `run`: the clock is reset, the candidates are read, and each is
        offered to the notifier as `TrendingAlerts` says. */
    method TrendingCheck(send: Send, now: int) returns (candidates: seq<TrendingDeal>, sent: seq<Notice>)
      modifies this, db
      ensures lastTrendingCheck == now && seenRows == old(seenRows)
      ensures SortedByHeat(candidates) && DistinctIds(candidates)
      ensures IdsOf(candidates) == TrendingIds(old(db.deals), now, TRENDING_WINDOW_HOURS, minHeatScore)
      ensures (db.State(), sent) == TrendingAlerts(old(db.State()), candidates, send)
    {
      lastTrendingCheck := now;
      candidates := db.GetTrendingDeals(TRENDING_WINDOW_HOURS, -1, minHeatScore, now);
      sent := AlertTrending(candidates, send);
    }

    /** The loop over the trending candidates. */
    method AlertTrending(candidates: seq<TrendingDeal>, send: Send) returns (sent: seq<Notice>)
      modifies db
      ensures (db.State(), sent) == TrendingAlerts(old(db.State()), candidates, send)
    {
      ghost var start := db.State();
      sent := [];
      for i := 0 to |candidates|
        invariant (db.State(), sent) == TrendingAlerts(start, candidates[..i], send)
      {
        TrendingAlertsNext(start, candidates, i, send);
        var c := candidates[i];
        var already := db.HasAlerted(c.id, TRENDING);
        if !already {
          var n := Notice(c.id, TRENDING);
          sent := sent + [n];
          if send(n) {
            db.LogAlert(c.id, TRENDING);
          }
        }
      }
      assert candidates[..|candidates|] == candidates;
    }

    /** `process_deal` for a handled row; reports whether the scrape was session-fatal, and
        `parent` is what the title lookup answered. */
    method HandleRow(a: RowAction, scrape: Scrape, send: Send, now: int) returns (fatal: bool, ghost parent: Option<string>)
      requires a.Handle?
      modifies db
      ensures fatal <==> scrape(a.target) == Crashed(true)
      ensures ParentAllowed(old(db.State()), a.target, Some(a.event), scrape(a.target), parent)
      ensures db.State() == ProcessDealSpec(old(db.State()), a.target, Some(a.event), scrape(a.target), parent, send, now).tables
      ensures old(db.alerts) <= db.alerts && old(db.deals.Keys) <= db.deals.Keys
    {
      ghost var before := db.State();
      var outcome, sent;
      outcome, sent, parent := ProcessDeal(a.target, Some(a.event), scrape, send, now);
      ProcessKeepsHistory(before, a.target, Some(a.event), scrape(a.target), parent, send, now);
      fatal := outcome == Raised(true);
    }

    /** The row loop over the row decisions; stops at a session-fatal error. `parents` are the
        title lookup's answers, one per row. */
    method ScanRows(acts: seq<RowAction>, scrape: Scrape, send: Send, now: int)
      returns (handled: seq<string>, fatal: bool, ghost parents: seq<Option<string>>)
      modifies this, db
      ensures Scan(old(seenRows), acts, scrape) == ScanState(seenRows, handled, fatal)
      ensures |parents| == |acts| && ParentsAllowed(old(db.State()), old(seenRows), acts, parents, scrape, send, now)
      ensures db.State() == ScanTables(old(db.State()), old(seenRows), acts, parents, scrape, send, now)
      ensures lastTrendingCheck == old(lastTrendingCheck)
      ensures old(db.alerts) <= db.alerts && old(db.deals.Keys) <= db.deals.Keys
    {
      ghost var seen0 := seenRows;
      ghost var start := db.State();
      handled := [];
      fatal := false;
      parents := [];
      var i := 0;
      while i < |acts|
        invariant 0 <= i <= |acts| && |parents| == i
        invariant Scan(seen0, acts[..i], scrape) == ScanState(seenRows, handled, false)
        invariant ParentsAllowed(start, seen0, acts[..i], parents, scrape, send, now)
        invariant db.State() == ScanTables(start, seen0, acts[..i], parents, scrape, send, now)
        invariant lastTrendingCheck == old(lastTrendingCheck)
      {
        ScanNext(seen0, acts, i, scrape);
        ScanTablesNext(start, seen0, acts, parents, i, None, scrape, send, now);
        var a := acts[i];
        ghost var p: Option<string> := None;
        if !a.Skip? && a.url !in seenRows {
          seenRows := seenRows + {a.url};
          if a.Handle? {
            handled := handled + [a.url];
            fatal, p := HandleRow(a, scrape, send, now);
            ScanTablesNext(start, seen0, acts, parents, i, p, scrape, send, now);
            if fatal {
              ghost var done := parents + [p];
              parents := done + seq(|acts| - i - 1, _ => None);
              assert parents[..i + 1] == done;
              ScanFatalSticky(seen0, acts, i + 1, scrape);
              ScanTablesFatalSticky(start, seen0, acts, parents, i + 1, scrape, send, now);
              return;
            }
          }
        }
        parents := parents + [p];
        i := i + 1;
      }
      assert acts[..i] == acts;
    }

    /** The row loop of one poll over the top rows; stops at a session-fatal error. */
    method ScanFeed(rows: seq<LiveRow>, now: int, scrape: Scrape, send: Send)
      returns (handled: seq<string>, fatal: bool, ghost parents: seq<Option<string>>)
      modifies this, db
      ensures var acts := RowCandidates(TopRows(rows), now);
        && Scan(old(seenRows), acts, scrape) == ScanState(seenRows, handled, fatal)
        && |parents| == |acts| && ParentsAllowed(old(db.State()), old(seenRows), acts, parents, scrape, send, now)
        && db.State() == ScanTables(old(db.State()), old(seenRows), acts, parents, scrape, send, now)
      ensures lastTrendingCheck == old(lastTrendingCheck)
      ensures old(db.alerts) <= db.alerts && old(db.deals.Keys) <= db.deals.Keys
    {
      var acts := RowCandidates(TopRows(rows), now);
      handled, fatal, parents := ScanRows(acts, scrape, send, now);
    }

    /** `run` over a sequence of polls: the trending pass when it is due, then the rows. A
        session-fatal error ends the poll, and the session is re-initialised with the seen set and
        the trending clock as they were. Returns every row url claimed and handed over, whose
        normalised target went to `process_deal`, and the number of restarts. */
    method Run(polls: seq<Poll>, scrape: Scrape, send: Send) returns (handled: seq<string>, restarts: nat)
      modifies this, db
      ensures NoDuplicates(handled)
      ensures forall u :: u in handled ==> u !in old(seenRows) && u in seenRows
      ensures old(seenRows) <= seenRows
      ensures restarts <= |polls|
      ensures old(db.alerts) <= db.alerts
    {
      handled := [];
      restarts := 0;
      var k := 0;
      while k < |polls|
        invariant 0 <= k <= |polls| && restarts <= k
        invariant NoDuplicates(handled)
        invariant forall u :: u in handled ==> u !in old(seenRows) && u in seenRows
        invariant old(seenRows) <= seenRows
        invariant old(db.alerts) <= db.alerts
      {
        var p := polls[k];
        if TrendingDue(p.now, lastTrendingCheck, trendingInterval) {
          ghost var before := db.State();
          var cands, _ := TrendingCheck(send, p.now);
          TrendingAlertsLedger(before, cands, send);
        }
        ghost var seenBefore := seenRows;
        var batch, fatal;
        ghost var parents;
        batch, fatal, parents := ScanFeed(p.rows, p.now, scrape, send);
        ScanAtMostOnce(seenBefore, RowCandidates(TopRows(p.rows), p.now), scrape);
        var h := handled + batch;
        forall i, j | 0 <= i < j < |h| ensures h[i] != h[j] {
          if j < |handled| {
            assert h[i] == handled[i] && h[j] == handled[j];
          } else if i >= |handled| {
            assert h[i] == batch[i - |handled|] && h[j] == batch[j - |handled|];
          } else {
            assert h[i] in handled && h[j] in batch;
          }
        }
        handled := h;
        if fatal {
          restarts := restarts + 1;
        }
        k := k + 1;
      }
    }
  }
}
