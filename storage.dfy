/** The storage engine (`StorageManager`): the live deal table with its integrity guard, the
    append-only snapshot log, the trending query, the title-to-node lookup, the watched-tag
    list, the alert ledger and the user activity archive.

    Each table operation is first a function on a `Tables` value; the `StorageManager` class
    holds the same tables as fields and each of its methods leaves `State()` equal to that
    function of the old tables. The clock (`datetime.now()` in Python, SQLite's `'now'` in
    the queries) is an integer number of seconds passed in by the caller. */
module Storage {
  import opened Wrappers
  import opened Text
  import opened Records

  /** One row of `live_deals`; its primary key `resolved_id` is the key it is stored under. */
  datatype LiveDeal = LiveDeal(
    resolvedUrl: string,
    originalUrl: string,
    title: Option<string>,
    price: Option<string>,
    description: Option<string>,
    couponCode: Option<string>,
    tags: seq<string>,
    upvotes: int,
    downvotes: int,
    commentCount: int,
    timestamp: int,
    timeStr: Option<string>,
    user: Option<string>,
    action: Option<string>,
    kind: Option<string>,
    isExpired: bool,
    postedDate: Option<string>,
    externalDomain: Option<string>,
    source: string)

  /** One row of `deal_snapshots`. */
  datatype Snapshot = Snapshot(dealId: string, timestamp: int, upvotes: int, commentCount: int)

  /** One row of `user_activity`; `activityRef` is its unique key. */
  datatype Activity = Activity(userId: string, dealId: Option<string>, activityRef: string, content: string,
                               activityType: string, timestamp: int)

  /** The five tables. `hasActiveColumn` records whether the `watched_tags` table of the opened
      database has an `is_active` column; the schema this engine creates does not. */
  datatype Tables = Tables(
    deals: map<string, LiveDeal>,
    snapshots: seq<Snapshot>,
    alerts: set<(string, string)>,
    watched: set<string>,
    hasActiveColumn: bool,
    activity: map<string, Activity>)

  const LIVE: string := "live"
  const MANUAL_FETCH: string := "manual_fetch"
  const DEFAULT_RETENTION_HOURS: nat := 168

  // ---------------------------------------------------------------------------------------
  // Upsert

  /** The primary key of a record: `data.get("id") or data.get("url")`. */
  function ResolvedKey(data: DealData): (k: string)
    ensures Truthy(data.id) ==> k == data.id.value
    ensures !Truthy(data.id) ==> k == data.url
  {
    if Truthy(data.id) then data.id.value else data.url
  }

  /** The tag list as stored: a list as it is, a truthy non-list as the one-element list of its
      text, anything else (a missing key included, which defaults to `[]`) as the empty list. */
  function SerializeTags(t: Tags): (r: seq<string>)
    ensures t.TagList? ==> r == t.items
    ensures t.TagScalar? ==> r == (if t.truthy then [t.text] else [])
    ensures t.TagsAbsent? ==> r == []
  {
    match t
    case TagList(items) => items
    case TagScalar(text, truthy) => if truthy then [text] else []
    case TagsAbsent => []
  }

  /** The integrity guard for one counter: an incoming 0 never overwrites a positive stored value. */
  function Guard(incoming: int, stored: Option<int>): (v: int)
    ensures v == incoming || (stored.Some? && v == stored.value)
    ensures v != incoming ==> incoming == 0 && stored.Some? && stored.value > 0
    ensures stored.Some? && stored.value > 0 ==> v != 0
  {
    if stored.Some? && incoming == 0 && stored.value > 0 then stored.value else incoming
  }

  /** The row `upsert_live_deal` writes for `data`, given the row already stored under its key. */
  function WriteRow(data: DealData, source: string, now: int, existing: Option<LiveDeal>): LiveDeal {
    LiveDeal(
      resolvedUrl := data.url,
      originalUrl := data.url,
      title := data.title,
      price := data.price,
      description := data.description,
      couponCode := data.couponCode,
      tags := SerializeTags(data.tags),
      upvotes := Guard(data.upvotes, if existing.Some? then Some(existing.value.upvotes) else None),
      downvotes := data.downvotes,
      commentCount := Guard(data.commentCount, if existing.Some? then Some(existing.value.commentCount) else None),
      timestamp := now,
      timeStr := data.timeStr,
      user := data.user,
      action := data.action,
      kind := data.kind,
      isExpired := data.isExpired,
      postedDate := data.postedDate,
      externalDomain := data.externalDomain,
      source := source)
  }

  /** `upsert_live_deal`: the row under the record's key is replaced and one snapshot of the
      guarded counters is appended; nothing else changes. */
  function Upsert(t: Tables, data: DealData, source: string, now: int): (r: Tables)
    ensures var k := ResolvedKey(data);
      && r.deals.Keys == t.deals.Keys + {k}
      && (forall j :: j in t.deals && j != k ==> r.deals[j] == t.deals[j])
      && r.snapshots == t.snapshots + [Snapshot(k, now, r.deals[k].upvotes, r.deals[k].commentCount)]
    ensures r.alerts == t.alerts && r.watched == t.watched && r.activity == t.activity
    ensures r.hasActiveColumn == t.hasActiveColumn
  {
    var k := ResolvedKey(data);
    var existing := if k in t.deals then Some(t.deals[k]) else None;
    var row := WriteRow(data, source, now, existing);
    t.(deals := t.deals[k := row], snapshots := t.snapshots + [Snapshot(k, now, row.upvotes, row.commentCount)])
  }

  /** The integrity guard, as the stored row shows it: each of upvotes and comment_count keeps its
      stored positive value exactly when the incoming value is 0, and is the incoming value
      otherwise; downvotes are written as they come. */
  lemma UpsertGuardsCounters(t: Tables, data: DealData, source: string, now: int)
    ensures var k := ResolvedKey(data); var row := Upsert(t, data, source, now).deals[k];
      && (if k in t.deals && data.upvotes == 0 && t.deals[k].upvotes > 0
          then row.upvotes == t.deals[k].upvotes else row.upvotes == data.upvotes)
      && (if k in t.deals && data.commentCount == 0 && t.deals[k].commentCount > 0
          then row.commentCount == t.deals[k].commentCount else row.commentCount == data.commentCount)
      && row.downvotes == data.downvotes
  {
  }

  /** The stored row carries the record's fields; its `original_url` is the record's `url`,
      the same as `resolved_url`, whatever the event's `original_url` was. */
  lemma UpsertWritesRecord(t: Tables, data: DealData, source: string, now: int)
    ensures var row := Upsert(t, data, source, now).deals[ResolvedKey(data)];
      && row.resolvedUrl == data.url && row.originalUrl == data.url
      && row.title == data.title && row.tags == SerializeTags(data.tags)
      && row.isExpired == data.isExpired && row.source == source && row.timestamp == now
      && row.price == data.price && row.description == data.description && row.couponCode == data.couponCode
      && row.timeStr == data.timeStr && row.user == data.user && row.action == data.action && row.kind == data.kind
      && row.postedDate == data.postedDate && row.externalDomain == data.externalDomain
  {
  }

  /** Upserting the same record twice leaves one row (the second write's) and two snapshots. */
  lemma UpsertTwice(t: Tables, data: DealData, source: string, now1: int, now2: int)
    ensures var once := Upsert(t, data, source, now2);
      var twice := Upsert(Upsert(t, data, source, now1), data, source, now2);
      && twice.deals == once.deals
      && |twice.snapshots| == |t.snapshots| + 2
  {
    var k := ResolvedKey(data);
    var first := Upsert(t, data, source, now1);
    assert first.deals[k].upvotes == Guard(data.upvotes, if k in t.deals then Some(t.deals[k].upvotes) else None);
  }

  /** A positive counter is never reset to 0 by any upsert. */
  lemma UpsertNeverZeroesPositive(t: Tables, data: DealData, source: string, now: int, k: string)
    requires k in t.deals
    ensures t.deals[k].upvotes > 0 ==> Upsert(t, data, source, now).deals[k].upvotes != 0
    ensures t.deals[k].commentCount > 0 ==> Upsert(t, data, source, now).deals[k].commentCount != 0
  {
  }

  // ---------------------------------------------------------------------------------------
  // Snapshot retention

  /** The snapshots that `DELETE ... WHERE timestamp < cutoff` keeps, in their order. */
  function Retain(snaps: seq<Snapshot>, cutoff: int): (r: seq<Snapshot>)
    ensures forall s :: s in r <==> s in snaps && s.timestamp >= cutoff
    ensures |r| <= |snaps|
    decreases |snaps|
  {
    if snaps == [] then []
    else (if snaps[0].timestamp >= cutoff then [snaps[0]] else []) + Retain(snaps[1..], cutoff)
  }

  /** Retention distributes over appending, so each appended snapshot is judged on its own. */
  lemma {:induction false} RetainAppend(a: seq<Snapshot>, b: seq<Snapshot>, cutoff: int)
    ensures Retain(a + b, cutoff) == Retain(a, cutoff) + Retain(b, cutoff)
    decreases |a|
  {
    if a == [] {
      assert a + b == b;
    } else {
      assert (a + b)[0] == a[0];
      assert (a + b)[1..] == a[1..] + b;
      RetainAppend(a[1..], b, cutoff);
    }
  }

  /** Running the cleanup again with the same cutoff removes nothing more. */
  lemma {:induction false} RetainIdempotent(snaps: seq<Snapshot>, cutoff: int)
    ensures Retain(Retain(snaps, cutoff), cutoff) == Retain(snaps, cutoff)
    decreases |snaps|
  {
    if snaps != [] {
      RetainIdempotent(snaps[1..], cutoff);
      RetainAppend(if snaps[0].timestamp >= cutoff then [snaps[0]] else [], Retain(snaps[1..], cutoff), cutoff);
    }
  }

  /** `cleanup_snapshots(hours)`: delete every snapshot older than `hours` before now. */
  function Cleanup(t: Tables, hours: nat, now: int): (r: Tables)
    ensures forall s :: s in r.snapshots <==> s in t.snapshots && s.timestamp >= now - hours * 3600
    ensures r.deals == t.deals && r.alerts == t.alerts && r.watched == t.watched && r.activity == t.activity
    ensures r.hasActiveColumn == t.hasActiveColumn
  {
    t.(snapshots := Retain(t.snapshots, now - hours * 3600))
  }

  // ---------------------------------------------------------------------------------------
  // Trending query

  /** The heat score: twice the upvotes plus the comments. */
  function Heat(d: LiveDeal): int {
    d.upvotes * 2 + d.commentCount
  }

  /** The WHERE clause of `get_trending_deals`. */
  predicate IsTrending(d: LiveDeal, now: int, hours: nat, minScore: int) {
    d.timestamp > now - hours * 3600 && Heat(d) >= minScore && !d.isExpired && d.source == LIVE
  }

  function TrendingIds(deals: map<string, LiveDeal>, now: int, hours: nat, minScore: int): set<string> {
    set k | k in deals && IsTrending(deals[k], now, hours, minScore)
  }

  /** One result row: the deal's columns and its `heat_score`. */
  datatype TrendingDeal = TrendingDeal(id: string, deal: LiveDeal, heat: int)

  predicate SortedByHeat(rows: seq<TrendingDeal>) {
    forall i, j :: 0 <= i < j < |rows| ==> rows[i].heat >= rows[j].heat
  }

  predicate DistinctIds(rows: seq<TrendingDeal>) {
    forall i, j :: 0 <= i < j < |rows| ==> rows[i].id != rows[j].id
  }

  function IdsOf(rows: seq<TrendingDeal>): set<string> {
    set r | r in rows :: r.id
  }

  /** The first `n` rows of a list sorted by descending heat are as hot as any row after them. */
  lemma PrefixIsHottest(all: seq<TrendingDeal>, n: nat, deals: map<string, LiveDeal>)
    requires n <= |all| && SortedByHeat(all)
    requires forall r :: r in all ==> r.id in deals && r.heat == Heat(deals[r.id])
    ensures forall k, r :: k in IdsOf(all) && k !in IdsOf(all[..n]) && r in all[..n] ==> r.heat >= Heat(deals[k])
  {
    var rows := all[..n];
    forall k, r | k in IdsOf(all) && k !in IdsOf(rows) && r in rows ensures r.heat >= Heat(deals[k]) {
      var q :| q in all && q.id == k;
      var iq :| 0 <= iq < |all| && all[iq] == q;
      var ir :| 0 <= ir < n && rows[ir] == r;
      assert all[ir] == r;
    }
  }

  /** Inserts a row into a list sorted by descending heat, keeping it sorted. */
  function InsertByHeat(rows: seq<TrendingDeal>, x: TrendingDeal): (r: seq<TrendingDeal>)
    ensures |r| == |rows| + 1
    ensures forall y :: y in r <==> y in rows || y == x
    decreases |rows|
  {
    if rows == [] || x.heat >= rows[0].heat then [x] + rows
    else [rows[0]] + InsertByHeat(rows[1..], x)
  }

  /** Insertion keeps the list sorted by descending heat. */
  lemma {:induction false} InsertByHeatSorted(rows: seq<TrendingDeal>, x: TrendingDeal)
    requires SortedByHeat(rows)
    ensures SortedByHeat(InsertByHeat(rows, x))
    decreases |rows|
  {
    var r := InsertByHeat(rows, x);
    if rows == [] || x.heat >= rows[0].heat {
      assert r == [x] + rows;
      forall i, j | 0 <= i < j < |r| ensures r[i].heat >= r[j].heat {
        assert r[j] == rows[j - 1];
        if i > 0 {
          assert r[i] == rows[i - 1];
        }
      }
    } else {
      var tail := rows[1..];
      var rest := InsertByHeat(tail, x);
      InsertByHeatSorted(tail, x);
      assert r == [rows[0]] + rest;
      forall i, j | 0 <= i < j < |r| ensures r[i].heat >= r[j].heat {
        assert r[j] == rest[j - 1];
        if i > 0 {
          assert r[i] == rest[i - 1];
        } else if rest[j - 1] != x {
          assert rest[j - 1] in tail;
          var m :| 0 <= m < |tail| && tail[m] == rest[j - 1];
          assert rows[m + 1] == tail[m];
        }
      }
    }
  }

  /** Insertion adds exactly the new row's id. */
  lemma InsertByHeatIds(rows: seq<TrendingDeal>, x: TrendingDeal)
    ensures IdsOf(InsertByHeat(rows, x)) == IdsOf(rows) + {x.id}
  {
    var r := InsertByHeat(rows, x);
    assert forall y :: y in r <==> y in rows || y == x;
  }

  /** Insertion of a row with a fresh id keeps the ids distinct. */
  lemma {:induction false} InsertByHeatDistinct(rows: seq<TrendingDeal>, x: TrendingDeal)
    requires DistinctIds(rows) && x.id !in IdsOf(rows)
    ensures DistinctIds(InsertByHeat(rows, x))
    decreases |rows|
  {
    var r := InsertByHeat(rows, x);
    if rows == [] || x.heat >= rows[0].heat {
      assert r == [x] + rows;
      forall i, j | 0 <= i < j < |r| ensures r[i].id != r[j].id {
        assert r[j] == rows[j - 1];
        if i > 0 {
          assert r[i] == rows[i - 1];
        } else {
          assert r[j] in rows;
        }
      }
    } else {
      var tail := rows[1..];
      var rest := InsertByHeat(tail, x);
      assert DistinctIds(tail) by {
        forall i, j | 0 <= i < j < |tail| ensures tail[i].id != tail[j].id {
          assert tail[i] == rows[i + 1] && tail[j] == rows[j + 1];
        }
      }
      assert x.id !in IdsOf(tail) by {
        assert forall y :: y in tail ==> y in rows;
      }
      InsertByHeatDistinct(tail, x);
      assert r == [rows[0]] + rest;
      forall i, j | 0 <= i < j < |r| ensures r[i].id != r[j].id {
        assert r[j] == rest[j - 1];
        if i > 0 {
          assert r[i] == rest[i - 1];
        } else if rest[j - 1] != x {
          assert rest[j - 1] in tail;
          var m :| 0 <= m < |tail| && tail[m] == rest[j - 1];
          assert rows[m + 1] == tail[m];
        } else {
          assert rows[0] in rows;
        }
      }
    }
  }

  // ---------------------------------------------------------------------------------------
  // Title lookup

  predicate IsNodeId(k: string) {
    StartsWith(k, "node/")
  }

  predicate ExactTitleMatch(deals: map<string, LiveDeal>, title: string, k: string) {
    k in deals && IsNodeId(k) && deals[k].title == Some(title)
  }

  predicate FuzzyTitleMatch(deals: map<string, LiveDeal>, title: string, k: string) {
    k in deals && IsNodeId(k) && deals[k].title.Some? && Contains(deals[k].title.value, title)
  }

  /** The results `resolve_node_id_by_title` may give: None for an empty title; some node row
      whose title equals it if there is one; otherwise some node row whose title contains it;
      otherwise None. Which row `LIMIT 1` picks among several is left open. */
  predicate LookupAllowed(deals: map<string, LiveDeal>, title: Option<string>, r: Option<string>) {
    if !Truthy(title) then r == None
    else if exists k | k in deals :: ExactTitleMatch(deals, title.value, k) then r.Some? && ExactTitleMatch(deals, title.value, r.value)
    else if exists k | k in deals :: FuzzyTitleMatch(deals, title.value, k) then r.Some? && FuzzyTitleMatch(deals, title.value, r.value)
    else r == None
  }

  /** Whatever the lookup returns is a stored node id, and an exact match is never passed over. */
  lemma LookupIsNode(deals: map<string, LiveDeal>, title: Option<string>, r: Option<string>)
    requires LookupAllowed(deals, title, r)
    ensures r.Some? ==> r.value in deals && IsNodeId(r.value) && Truthy(title)
    ensures r.Some? ==> deals[r.value].title.Some? && Contains(deals[r.value].title.value, title.value)
    ensures r.None? && Truthy(title) ==> forall k :: k in deals && IsNodeId(k) && deals[k].title.Some? ==> !Contains(deals[k].title.value, title.value)
    ensures Truthy(title) && (exists k | k in deals :: ExactTitleMatch(deals, title.value, k)) ==>
      r.Some? && deals[r.value].title == title
  {
    if r.Some? && deals[r.value].title == Some(title.value) {
      assert StartsWith(deals[r.value].title.value, title.value);
    }
    if r.None? && Truthy(title) {
      forall k | k in deals && IsNodeId(k) && deals[k].title.Some?
        ensures !Contains(deals[k].title.value, title.value)
      {
        assert !FuzzyTitleMatch(deals, title.value, k);
      }
    }
  }

  // ---------------------------------------------------------------------------------------
  // Watched tags, alerts, activity

  /** `add_watched_tag`: the INSERT names `is_active`; without that column it fails and the
      error is printed and swallowed, so nothing is added. */
  function AddTag(t: Tables, tag: string): (r: Tables)
    ensures t.hasActiveColumn ==> r.watched == t.watched + {tag}
    ensures !t.hasActiveColumn ==> r == t
    ensures r.deals == t.deals && r.alerts == t.alerts && r.hasActiveColumn == t.hasActiveColumn
    ensures r.snapshots == t.snapshots && r.activity == t.activity
  {
    if t.hasActiveColumn then t.(watched := t.watched + {tag}) else t
  }

  /** `remove_watched_tag`. */
  function RemoveTag(t: Tables, tag: string): (r: Tables)
    ensures r.watched == t.watched - {tag} && tag !in r.watched
    ensures r.deals == t.deals && r.alerts == t.alerts && r.hasActiveColumn == t.hasActiveColumn
    ensures r.snapshots == t.snapshots && r.activity == t.activity
  {
    t.(watched := t.watched - {tag})
  }

  /** `get_watched_tags`: the SELECT filters on `is_active`, which raises without that column. */
  function WatchedTags(t: Tables): (r: Result<set<string>, string>)
    ensures r.Success? <==> t.hasActiveColumn
    ensures r.Success? ==> r.value == t.watched
  {
    if t.hasActiveColumn then Success(t.watched) else Failure("no such column: is_active")
  }

  /** On a database created by this schema the watched-tag list can never be read, whatever
      tags are added or removed. */
  lemma WatchedTagsUnreadable(t: Tables, ops: seq<(bool, string)>)
    requires !t.hasActiveColumn
    ensures WatchedTags(ApplyTagOps(t, ops)).Failure?
    decreases |ops|
  {
    if ops != [] {
      WatchedTagsUnreadable(t, ops[..|ops| - 1]);
    }
  }

  /** A sequence of `add_watched_tag` (true) and `remove_watched_tag` (false) calls. */
  function ApplyTagOps(t: Tables, ops: seq<(bool, string)>): (r: Tables)
    ensures r.hasActiveColumn == t.hasActiveColumn
    decreases |ops|
  {
    if ops == [] then t
    else
      var prev := ApplyTagOps(t, ops[..|ops| - 1]);
      var op := ops[|ops| - 1];
      if op.0 then AddTag(prev, op.1) else RemoveTag(prev, op.1)
  }

  /** `log_alert`: INSERT OR IGNORE into the ledger. */
  function RecordAlert(t: Tables, dealId: string, alertType: string): (r: Tables)
    ensures (dealId, alertType) in r.alerts
    ensures t.alerts <= r.alerts && r.alerts - t.alerts <= {(dealId, alertType)}
    ensures r.deals == t.deals && r.snapshots == t.snapshots && r.watched == t.watched && r.activity == t.activity
    ensures r.hasActiveColumn == t.hasActiveColumn
  {
    t.(alerts := t.alerts + {(dealId, alertType)})
  }

  /** Logging an alert a second time changes nothing. */
  lemma LogAlertIdempotent(t: Tables, dealId: string, alertType: string)
    ensures RecordAlert(RecordAlert(t, dealId, alertType), dealId, alertType) == RecordAlert(t, dealId, alertType)
  {
  }

  /** `log_user_activity`: INSERT OR REPLACE keyed by `activity_ref`. */
  function RecordActivity(t: Tables, userId: string, dealId: Option<string>, activityRef: string,
                           content: string, activityType: string, now: int): (r: Tables)
    ensures r.activity.Keys == t.activity.Keys + {activityRef}
    ensures r.activity[activityRef] == Activity(userId, dealId, activityRef, content, activityType, now)
    ensures forall j :: j in t.activity && j != activityRef ==> r.activity[j] == t.activity[j]
    ensures r.deals == t.deals && r.snapshots == t.snapshots && r.alerts == t.alerts && r.watched == t.watched
    ensures r.hasActiveColumn == t.hasActiveColumn
  {
    t.(activity := t.activity[activityRef := Activity(userId, dealId, activityRef, content, activityType, now)])
  }

  /** Archiving the same activity again replaces the earlier row: the archive is as if it had
      been logged once, at the later time. */
  lemma LogUserActivityTwice(t: Tables, userId: string, dealId: Option<string>, activityRef: string,
                             content: string, activityType: string, now1: int, now2: int)
    ensures RecordActivity(RecordActivity(t, userId, dealId, activityRef, content, activityType, now1),
                            userId, dealId, activityRef, content, activityType, now2)
         == RecordActivity(t, userId, dealId, activityRef, content, activityType, now2)
  {
  }

  // ---------------------------------------------------------------------------------------
  // The store object

  class StorageManager {
    var deals: map<string, LiveDeal>
    var snapshots: seq<Snapshot>
    var alerts: set<(string, string)>
    var watched: set<string>
    const hasActiveColumn: bool
    var activity: map<string, Activity>

    function State(): Tables
      reads this
    {
      Tables(deals, snapshots, alerts, watched, hasActiveColumn, activity)
    }

    /** Opening a database: the tables it already holds, then the start-up `cleanup_snapshots()`
        with the default retention. */
    constructor (existing: Tables, now: int)
      ensures State() == Cleanup(existing, DEFAULT_RETENTION_HOURS, now)
    {
      deals := existing.deals;
      snapshots := Retain(existing.snapshots, now - DEFAULT_RETENTION_HOURS * 3600);
      alerts := existing.alerts;
      watched := existing.watched;
      hasActiveColumn := existing.hasActiveColumn;
      activity := existing.activity;
    }

    method UpsertLiveDeal(data: DealData, source: string, now: int) returns (id: string)
      modifies this
      ensures State() == Upsert(old(State()), data, source, now)
      ensures id == ResolvedKey(data) && id in deals
    {
      id := if Truthy(data.id) then data.id.value else data.url;
      var existing := if id in deals then Some(deals[id]) else None;
      var row := WriteRow(data, source, now, existing);
      deals := deals[id := row];
      snapshots := snapshots + [Snapshot(id, now, row.upvotes, row.commentCount)];
    }

    method CleanupSnapshots(hours: nat, now: int)
      modifies this
      ensures State() == Cleanup(old(State()), hours, now)
    {
      snapshots := Retain(snapshots, now - hours * 3600);
    }

    /** `get_trending_deals(hours, limit, min_score)`: the trending rows by descending heat; when
        `limit > 0` only the first `limit` of them, and no row left out is hotter than a row kept. */
    method GetTrendingDeals(hours: nat, limit: int, minScore: int, now: int) returns (rows: seq<TrendingDeal>)
      ensures SortedByHeat(rows) && DistinctIds(rows)
      ensures forall r :: r in rows ==>
        r.id in deals && r.deal == deals[r.id] && r.heat == Heat(r.deal) && IsTrending(r.deal, now, hours, minScore)
      ensures limit <= 0 ==> IdsOf(rows) == TrendingIds(deals, now, hours, minScore)
      ensures limit > 0 ==> |rows| <= limit
      ensures limit > 0 && |rows| < limit ==> IdsOf(rows) == TrendingIds(deals, now, hours, minScore)
      ensures forall k, r :: k in TrendingIds(deals, now, hours, minScore) && k !in IdsOf(rows) && r in rows ==>
        r.heat >= Heat(deals[k])
    {
      var ids := TrendingIds(deals, now, hours, minScore);
      var remaining := ids;
      var all: seq<TrendingDeal> := [];
      while remaining != {}
        invariant remaining <= ids
        invariant SortedByHeat(all) && DistinctIds(all)
        invariant IdsOf(all) == ids - remaining
        invariant forall r :: r in all ==>
          r.id in deals && r.deal == deals[r.id] && r.heat == Heat(r.deal) && IsTrending(r.deal, now, hours, minScore)
        decreases remaining
      {
        var k :| k in remaining;
        var x := TrendingDeal(k, deals[k], Heat(deals[k]));
        InsertByHeatSorted(all, x);
        InsertByHeatIds(all, x);
        InsertByHeatDistinct(all, x);
        all := InsertByHeat(all, x);
        remaining := remaining - {k};
      }
      assert IdsOf(all) == ids;
      if limit > 0 && |all| > limit {
        rows := all[..limit];
        PrefixIsHottest(all, limit, deals);
      } else {
        rows := all;
      }
    }

    method ResolveNodeIdByTitle(title: Option<string>) returns (r: Option<string>)
      ensures LookupAllowed(deals, title, r)
    {
      if !Truthy(title) {
        return None;
      }
      var t := title.value;
      if exists k | k in deals :: ExactTitleMatch(deals, t, k) {
        var k :| k in deals && ExactTitleMatch(deals, t, k);
        return Some(k);
      }
      if exists k | k in deals :: FuzzyTitleMatch(deals, t, k) {
        var k :| k in deals && FuzzyTitleMatch(deals, t, k);
        return Some(k);
      }
      return None;
    }

    method AddWatchedTag(tag: string)
      modifies this
      ensures State() == AddTag(old(State()), tag)
    {
      if hasActiveColumn {
        watched := watched + {tag};
      }
    }

    method RemoveWatchedTag(tag: string)
      modifies this
      ensures State() == RemoveTag(old(State()), tag)
    {
      watched := watched - {tag};
    }

    method GetWatchedTags() returns (r: Result<set<string>, string>)
      ensures r == WatchedTags(State())
      ensures r.Success? <==> hasActiveColumn
    {
      if hasActiveColumn {
        r := Success(watched);
      } else {
        r := Failure("no such column: is_active");
      }
    }

    method HasAlerted(dealId: string, alertType: string) returns (b: bool)
      ensures b <==> (dealId, alertType) in alerts
    {
      b := (dealId, alertType) in alerts;
    }

    method LogAlert(dealId: string, alertType: string)
      modifies this
      ensures State() == RecordAlert(old(State()), dealId, alertType)
    {
      alerts := alerts + {(dealId, alertType)};
    }

    method LogUserActivity(userId: string, dealId: Option<string>, activityRef: string, content: string,
                           activityType: string, now: int)
      modifies this
      ensures State() == RecordActivity(old(State()), userId, dealId, activityRef, content, activityType, now)
    {
      activity := activity[activityRef := Activity(userId, dealId, activityRef, content, activityType, now)];
    }
  }
}
