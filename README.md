# ozbargainer, modelled in Dafny

ozbargainer watches the OzBargain live-activity feed and keeps a SQLite database of the deals it
sees. For every new "Deal" row in the feed, the live monitor fetches the deal page and upserts
the record. It never lets a good counter be overwritten by a zero. It keeps a snapshot history
for trend analysis, resolves comment links to their parent deal, and sends a Telegram priority
alert when a live deal carries a watched tag. Every few minutes it also alerts on trending deals.
The repository also holds:

- a legacy monitor (`live_monitor.py`) with slightly different rules;
- a fast HTTP scraper with pure derivations (canonical ids, comment ids, prices, comment counts,
  tags, vote counts, coupon codes) and a profile-activity walk;
- a backfill that archives a user's activity;
- a repair script that re-scrapes rows whose title is the site name;
- a Telegram notifier that loads its settings from a `.env` file.

The model has one Dafny module per source concern:

| module | file | models |
|---|---|---|
| `Wrappers` | wrappers.dfy | `Option` / `Result` |
| `Text` | text.dfy | the Python `str` operations the code relies on: `strip`, `split`, `lower`, `in`, `int()` |
| `Records` | records.dfy | the scraped deal record, the scrape result, notices and the abstract collaborators |
| `Storage` | storage.dfy | `StorageManager` (`ozbargain/db/manager.py`): the tables as a value, one pure function per SQL operation, and a class whose methods change the tables |
| `Feed` | feed.dfy | the feed helpers shared by both monitors: relative time, link normalisation, merging feed data into a record |
| `Monitor` | monitor.dfy | the current monitor (`ozbargain/core/monitor.py`) |
| `LegacyMonitor` | legacy_monitor.dfy | the older `live_monitor.py` |
| `Scraper` | scraper.dfy | the derivations of `scraper.py` and its activity walk |
| `Backfill` | backfill.dfy | `fetch_user_activity.py` |
| `Recovery` | cleanup.dfy | `scripts/cleanup_db.py` |
| `Notifier` | notifier.dfy | `notifier.py` |

The database is a `Tables` value: deals keyed by id, the snapshot sequence, the alert ledger,
the watched tags and the user-activity archive. `Storage.StorageManager` holds those tables in
fields. Each method is specified as `State() == F(old(State()))` for the pure function `F` of
its SQL statement, and the properties are lemmas about `F`. Opening the store runs the 7-day
snapshot cleanup, as `_initialize_db` does.

Three things outside the program are parameters:

- the browser or HTTP scraper: `Scrape`, from a url to a result;
- the notifier: `Send`, from a notice to its boolean answer;
- the clock: integer seconds.

The title lookup of `resolve_node_id_by_title` ends in `LIMIT 1` without an order, so its answer
is modelled as any node row that matches (`Storage.LookupAllowed`).

Behaviour of the code worth knowing:

- The `watched_tags` table this code creates has no `is_active` column, but both the insert and
  the select name it. Both statements therefore fail on a fresh database. `add_watched_tag` then
  swallows its error, and `get_watched_tags` raises inside `process_deal`'s exception handler.
  The model keeps a flag `hasActiveColumn` for databases created with and without the column.
- The stored `original_url` is the record's `url` field, the page that was fetched. It is not the
  feed link.
- The current monitor's seen set holds the raw row url, and only afterwards is `/redir` dropped
  from a `/node/` url. Rows linking `/node/5` and `/node/5/redir` are both handed over, and the
  same deal is processed twice (`Monitor.SameTargetHandledTwice`).
- In the current monitor, title recovery from the feed can never change anything. The merge has
  already copied the feed title into the record (`Monitor.RecoveryAfterMergeIsNoOp`).
- The current monitor only logs an alert when the notifier reports success. The notifier in
  `notifier.py` returns no value, so with that notifier, trending alerts are never logged
  (`Notifier.TrendingNeverLogged`).

## Model

| member | source | states |
|---|---|---|
| Storage.ResolvedKey | ozbargain/db/manager.py:136 | the row key is the record's id when that is truthy and its url otherwise |
| Storage.SerializeTags | ozbargain/db/manager.py:140-144 | a tag list is stored as that list; a truthy scalar becomes the one entry of its text and a falsy one, like missing tags, the empty list |
| Storage.Guard | ozbargain/db/manager.py:155-165 | the stored counter is the incoming one unless the incoming one is zero and a positive value is stored; a stored positive counter never becomes zero |
| Storage.Upsert | ozbargain/db/manager.py:130-214 | the row key is written and every other deal row is unchanged; alerts, watched tags and activity are untouched; exactly one snapshot with the new counters is appended |
| Storage.UpsertGuardsCounters | ozbargain/db/manager.py:152-186 | upvotes and comment count keep their stored positive value exactly when the incoming value is zero and are the incoming value otherwise; downvotes are written as they come |
| Storage.UpsertWritesRecord | ozbargain/db/manager.py:168-197 | the written row replaces the whole stored row: it carries the record's title, price, description, coupon code, serialised tags, time text, user, action, kind, posted date, external domain, expiry, the source and the write time; both its resolved and its original url are the record's url |
| Storage.UpsertTwice | ozbargain/db/manager.py:168-210 | upserting the same record twice leaves the deal rows of the second upsert alone and appends two snapshots |
| Storage.UpsertNeverZeroesPositive | ozbargain/db/manager.py:158-165 | a positive stored upvote or comment count is never replaced by zero |
| Storage.Retain | ozbargain/db/manager.py:222 | a snapshot survives exactly when its timestamp is at or after the cutoff, and nothing is added |
| Storage.RetainAppend | ozbargain/db/manager.py:222 | pruning distributes over concatenation, so snapshots appended later are judged against the same cutoff on their own |
| Storage.RetainIdempotent | ozbargain/db/manager.py:216-227 | pruning twice at the same cutoff is the same as pruning once |
| Storage.Cleanup | ozbargain/db/manager.py:216-227 | exactly the snapshots younger than the given hours survive; the deals, alerts, watched tags and activity are unchanged |
| Storage.PrefixIsHottest | ozbargain/db/manager.py:250-251 | in a list sorted by descending heat, a deal omitted by the limit is no hotter than any kept row |
| Storage.InsertByHeat | ozbargain/db/manager.py:250 | inserting a row adds exactly that row |
| Storage.InsertByHeatSorted | ozbargain/db/manager.py:250 | insertion keeps the list sorted by descending heat |
| Storage.InsertByHeatIds | ozbargain/db/manager.py:243-252 | the ids after insertion are the old ids plus the new one |
| Storage.InsertByHeatDistinct | ozbargain/db/manager.py:243-252 | inserting a new id keeps the ids distinct |
| Storage.LookupIsNode | ozbargain/db/manager.py:258-276 | an answer is a stored `node/` row whose title contains the searched title; no answer for a truthy title means no node row's title contains it; when some row's title equals the searched title, there is an answer and its title is that title |
| Storage.AddTag | ozbargain/db/manager.py:280-290 | with the `is_active` column the tag joins the watched set; without it the insert fails and nothing changes; snapshots and activity are unchanged either way |
| Storage.RemoveTag | ozbargain/db/manager.py:292-298 | the tag is no longer watched, other tags stay, and the other tables are unchanged |
| Storage.WatchedTags | ozbargain/db/manager.py:300-307 | the select succeeds exactly when the column exists, and then returns the watched set |
| Storage.WatchedTagsUnreadable | ozbargain/db/manager.py:108-112 | on the schema this code creates, no sequence of adds and removes ever makes the watched tags readable |
| Storage.ApplyTagOps | ozbargain/db/manager.py:280-298 | adding and removing tags never changes whether the `is_active` column exists |
| Storage.RecordAlert | ozbargain/db/manager.py:320-333 | the pair is in the ledger afterwards, at most that pair is added, and nothing else changes |
| Storage.LogAlertIdempotent | ozbargain/db/manager.py:320-333 | logging the same alert twice is the same as logging it once |
| Storage.RecordActivity | ozbargain/db/manager.py:337-349 | the row under the activity ref is replaced by the new one, other refs keep their rows, and the other tables are unchanged |
| Storage.LogUserActivityTwice | ozbargain/db/manager.py:342-345 | archiving under the same ref twice keeps only the second row |
| Storage.StorageManager.constructor | ozbargain/db/manager.py:8-14 | opening the store runs the 7-day snapshot cleanup on the existing file |
| Storage.StorageManager.UpsertLiveDeal | ozbargain/db/manager.py:130-214 | the new tables are the upsert of the old ones; the returned id is the record's key and is stored |
| Storage.StorageManager.CleanupSnapshots | ozbargain/db/manager.py:216-227 | the new tables are the cleanup of the old ones |
| Storage.StorageManager.GetTrendingDeals | ozbargain/db/manager.py:229-256 | rows sorted by descending heat with distinct ids, each a live deal meeting the window and score; no limit gives every trending deal; a limit caps the count; no omitted trending deal is hotter than a returned one |
| Storage.StorageManager.ResolveNodeIdByTitle | ozbargain/db/manager.py:258-276 | the answer is one the title lookup allows |
| Storage.StorageManager.AddWatchedTag | ozbargain/db/manager.py:280-290 | the new tables are the tag added to the old ones |
| Storage.StorageManager.RemoveWatchedTag | ozbargain/db/manager.py:292-298 | the new tables are the tag removed from the old ones |
| Storage.StorageManager.GetWatchedTags | ozbargain/db/manager.py:300-307 | the result is the watched set, and it is a failure exactly when the column is missing |
| Storage.StorageManager.HasAlerted | ozbargain/db/manager.py:311-318 | true exactly when the pair is in the ledger |
| Storage.StorageManager.LogAlert | ozbargain/db/manager.py:320-333 | the new tables record the alert |
| Storage.StorageManager.LogUserActivity | ozbargain/db/manager.py:337-349 | the new tables record the activity under its ref |
| Text.StripIdempotent | ozbargain/core/monitor.py:100 | `strip` leaves no whitespace at either end, so stripping again changes nothing |
| Text.JoinSplit | ozbargain/core/monitor.py:105 | the pieces of a split, joined by the separator, give back the string |
| Text.ParseNatToString | ozbargain/core/monitor.py:109 | `int` reads back the decimal text of any natural number |
| Feed.TopRows | ozbargain/core/monitor.py:210-211 | at most the first 20 rows, in order; all of them when there are fewer |
| Feed.Offset | ozbargain/core/monitor.py:112-120 | the unit is tested for "sec", "min", "hour", "day" in that order, giving the count times 1, 60, 3600 or 86400 seconds; an unknown unit gives no offset |
| Feed.RelativeTimeNow | ozbargain/core/monitor.py:100-103 | a text containing "now", in any case, is the current time |
| Feed.RelativeTimeUnparsed | ozbargain/core/monitor.py:105-124 | fewer than two words, or a first word that is not an integer, gives the current time |
| Feed.RelativeTimeOffset | ozbargain/core/monitor.py:105-122 | otherwise the time is now minus the offset of the first word's number in the second word's unit, or now when that offset is outside the range of a `timedelta` |
| Feed.RelativeTimeRoundTrip | ozbargain/core/monitor.py:97-124 | the feed text "n unit ago" is read back as now minus n units, within the range of a `timedelta` |
| Feed.TimedeltaRange | ozbargain/core/monitor.py:119-124 | offsets of up to 999999999 days either way are in range; 1000000000 days is not, so that text reads as now |
| Feed.AbsoluteUrl | ozbargain/core/monitor.py:224-225 | a site-relative href gets the site prefix; any other href is kept; the href is always a suffix |
| Feed.NodeRedirNormalized | ozbargain/core/monitor.py:247-252 | the redirect suffix is dropped only for `/node/` urls |
| Feed.RedirNormalizedAbsent | ozbargain/core/monitor.py:247-252 | a url without `/redir` is left unchanged by both normalisations |
| Feed.RedirSuffixStripped | scripts/cleanup_db.py:33-34 | `base/redir` is normalised to `base` |
| Feed.RedirAllStripped | scripts/cleanup_db.py:33-34 | a url ending in `/redir` loses every `/redir` in it: its `/redir`-free pieces are concatenated |
| Feed.RedirNormalizedCanLeaveRedir | scripts/cleanup_db.py:33-34 | dropping every `/redir` at once can form a new one: "/re/redirdir/redir" becomes "/redir" |
| Feed.DistinctUrlsShareTarget | ozbargain/core/monitor.py:247-252 | a `/node/` url without `/redir` and the same url with `/redir` appended normalise to one deal url |
| Feed.RedirQueryRewritten | scripts/cleanup_db.py:35-36 | a url `p/redir?q` that does not end in `/redir` becomes `p?q` |
| Feed.Merge | ozbargain/core/monitor.py:35-36 | with feed data, the feed's original url, time, user, action and kind overwrite the record's, and its title does when the feed has one; id, url, tags, expiry, counters, price, description, coupon, posted date and external domain stay as scraped; without feed data the record is unchanged |
| Feed.MergeTimestampOnly | ozbargain/db/manager.py:186-197 | the feed timestamp never reaches the stored row: two events that differ only in time leave the same record to store |
| Monitor.WorkingId | ozbargain/core/monitor.py:39 | the working id is the record's id when truthy, otherwise the fetched url |
| Monitor.RecoverTitle | ozbargain/core/monitor.py:43-45 | a missing or placeholder title is replaced by the feed title; a real title, or no feed title, is kept |
| Monitor.RecoveryAfterMergeIsNoOp | ozbargain/core/monitor.py:35-45 | after the merge, title recovery changes nothing |
| Monitor.DealTagSet | ozbargain/core/monitor.py:66 | a tag list gives the set of its tags; no tags gives the empty set |
| Monitor.ScrapeErrorChangesNothing | ozbargain/core/monitor.py:30-32 | a scrape error or a raised exception stores nothing and sends nothing; an error result is a rejection |
| Monitor.ScrapedDealIsStored | ozbargain/core/monitor.py:56 | a scraped deal is upserted as a live deal under the prepared record's key, which is returned with the page url |
| Monitor.CommentResolution | ozbargain/core/monitor.py:48-53 | a comment id is replaced by the parent exactly when the lookup found one, and the parent is a stored node row; otherwise the record's own key is used |
| Monitor.ExpiredDealNoAlert | ozbargain/core/monitor.py:61-63 | an expired deal is stored and no notice is sent |
| Monitor.PriorityAlertRule | ozbargain/core/monitor.py:61-87 | a priority notice goes out exactly for an unexpired deal with a watched tag and no priority alert yet; the alert is logged exactly when the notifier reports success; nothing else is logged |
| Monitor.NoPriorityAlertWithoutActiveColumn | ozbargain/core/monitor.py:65-89 | with the schema this code creates, processing never sends a priority notice or logs an alert |
| Monitor.PriorityAlertWithActiveColumn | ozbargain/core/monitor.py:65-83 | with the `is_active` column, a deal carrying a freshly added tag is notified once |
| Monitor.ProcessKeepsHistory | ozbargain/core/monitor.py:23-95 | processing never removes an alert or a deal row, and it reports a session-fatal error exactly when the scraper raised one |
| Monitor.TrendingAlertsLedger | ozbargain/core/monitor.py:194-207 | after the pass the ledger holds exactly the old entries plus the delivered candidates' trending alerts; the other tables are unchanged |
| Monitor.TrendingAlertsNotices | ozbargain/core/monitor.py:194-203 | every notice is a trending notice for a candidate without a trending alert before the pass, and every such candidate gets one |
| Monitor.TrendingAlertsOnce | ozbargain/core/monitor.py:194-207 | the notices of one pass are pairwise distinct |
| Monitor.RowEvent | ozbargain/core/monitor.py:230-245 | the event carries the link text as title, the link as original url, the action, the kind "Deal", the stripped time text and its parsed relative time, and the stripped user |
| Monitor.RowCandidate | ozbargain/core/monitor.py:215-252 | a row is claimed exactly when it is a "Deal" row with a link, under its absolute url; it is handed over exactly when it also has an action icon, with the redirect-normalised target and the event of the stripped link text and the icon's title, or "Unknown" when that is missing or empty |
| Monitor.RowCandidates | ozbargain/core/monitor.py:213-252 | one decision per row, in order |
| Monitor.ScanAtMostOnce | ozbargain/core/monitor.py:227-228 | the seen set only grows; each row url is claimed at most once: the handled row urls are distinct, unseen before and seen after, at most one per row |
| Monitor.SameTargetHandledTwice | ozbargain/core/monitor.py:227-255 | two distinct unseen row urls with one normalised target are both handed over, so `process_deal` gets that deal url twice |
| Monitor.ScanSeenFromActions | ozbargain/core/monitor.py:227-228 | every url added to the seen set was claimed by a row decision |
| Monitor.SeenUrlsComeFromDealRows | ozbargain/core/monitor.py:213-228 | every url added to the seen set is the absolute link of a "Deal" row of the batch |
| Monitor.ScanFatalSticky | ozbargain/core/monitor.py:257-260 | after a session-fatal error the remaining rows change nothing |
| Monitor.ScanTables | ozbargain/core/monitor.py:213-260 | the tables after the row loop: each row handed over is processed in turn on the tables the rows before it left, with that row's lookup answer; no alert or deal row is lost |
| Monitor.FirstPollChecksTrending | ozbargain/core/monitor.py:128-189 | the trending pass is due at the first poll after start-up |
| Monitor.LiveMonitor.constructor | ozbargain/core/monitor.py:11-21 | an empty seen set, the trending clock one interval back, and the given settings |
| Monitor.LiveMonitor.ProcessDeal | ozbargain/core/monitor.py:23-95 | the new tables, the outcome and the notices are those of the processing function, for a lookup answer it allows |
| Monitor.LiveMonitor.AlertIfWatched | ozbargain/core/monitor.py:59-89 | the new tables and notices are the priority step's |
| Monitor.LiveMonitor.TrendingCheck | ozbargain/core/monitor.py:189-207 | the candidates are every trending deal, sorted by heat with distinct ids; the tables and notices are the trending pass's; the trending clock is set to now |
| Monitor.LiveMonitor.AlertTrending | ozbargain/core/monitor.py:194-207 | the loop computes the trending pass over the candidates |
| Monitor.LiveMonitor.HandleRow | ozbargain/core/monitor.py:255-260 | the row is fatal exactly when the scraper raised a session-fatal error; the title lookup's answer is one `ParentAllowed` permits and the new tables are `ProcessDealSpec` of the old ones with it; no alert or deal row is lost |
| Monitor.LiveMonitor.ScanRows | ozbargain/core/monitor.py:213-260 | the seen set, the handled urls and the fatal flag are those of the scan; the new tables are `ScanTables`, each row handed over processed in turn with a permitted lookup answer |
| Monitor.LiveMonitor.ScanFeed | ozbargain/core/monitor.py:210-260 | the scan and the tables of `ScanTables` over the first 20 rows' decisions; the trending clock is unchanged |
| Monitor.LiveMonitor.Run | ozbargain/core/monitor.py:126-272 | over all polls and restarts, each row url is claimed and handed over at most once and was not seen at start; the seen set and the alert ledger only grow; at most one restart per poll |
| LegacyMonitor.ClassAction | live_monitor.py:237-241 | icon classes map to the known actions, "fa-file" to "Post" |
| LegacyMonitor.ActionString | live_monitor.py:229-241 | no icon gives "Unknown"; a truthy icon title is used as is; an icon with neither title nor class raises, which skips the row |
| LegacyMonitor.RowCandidate | live_monitor.py:222-279 | a row is handled exactly when its action is readable and it is a "Deal" row with a link; the target is the absolute url itself, and the event has no title |
| LegacyMonitor.RowCandidates | live_monitor.py:214-216 | one decision per row, in order |
| LegacyMonitor.Scan | live_monitor.py:216-295 | errors while processing a row are swallowed, so the legacy scan never stops early; the seen set gains the url of every row not skipped |
| LegacyMonitor.ScanAtMostOnce | live_monitor.py:262-266 | each url is handed over at most once, unseen before and seen after |
| LegacyMonitor.ScanTables | live_monitor.py:216-295 | the tables after the legacy row loop: each row handed over is processed in turn on the tables the rows before it left; no alert is lost |
| LegacyMonitor.ScrapeErrorChangesNothing | live_monitor.py:29-31 | a scrape error stores nothing and sends nothing |
| LegacyMonitor.NoResolutionNoRecovery | live_monitor.py:34-38 | the merged record is stored under its own key: a comment id stays a comment id, and the title is whatever the merge left |
| LegacyMonitor.PriorityAlertAlwaysLogged | live_monitor.py:43-64 | a priority notice goes out exactly for an unexpired watched-tag deal not yet alerted, and it is logged at once whatever the notifier answers |
| LegacyMonitor.TrendingAlertsLedger | live_monitor.py:187-201 | every candidate at or above the threshold is in the ledger afterwards; the notices are exactly those for qualifying candidates not alerted before |
| LegacyMonitor.FirstTrendingCheckLater | live_monitor.py:175-182 | during the first interval after start-up the legacy monitor runs no trending pass, while the current one does |
| LegacyMonitor.PriorityAlertOnlyAdds | live_monitor.py:22-75 | legacy processing never removes an alert |
| LegacyMonitor.LegacyLiveMonitor.constructor | live_monitor.py:11-20 | an empty seen set, the trending clock at start, and the given settings |
| LegacyMonitor.LegacyLiveMonitor.ProcessDeal | live_monitor.py:22-75 | the new tables, outcome and notices are those of the legacy processing function |
| LegacyMonitor.LegacyLiveMonitor.TrendingCheck | live_monitor.py:180-204 | the candidates are every trending deal; the tables and notices are the legacy pass's; the trending clock is set to now |
| LegacyMonitor.LegacyLiveMonitor.ScanFeed | live_monitor.py:211-295 | the scan and the tables of the legacy `ScanTables` over the first 20 rows' decisions, never fatal |
| LegacyMonitor.LegacyLiveMonitor.ScanRows | live_monitor.py:216-295 | the seen set and handled urls are those of the legacy scan, and the new tables are the legacy `ScanTables` |
| LegacyMonitor.LegacyLiveMonitor.HandleRow | live_monitor.py:279-295 | the new tables are the legacy `ProcessDealSpec` of the old ones; no alert is removed |
| LegacyMonitor.LegacyLiveMonitor.Run | live_monitor.py:106-301 | over all polls each url is handed over at most once; the seen set and the alert ledger only grow |
| Scraper.SearchLeftmost | scraper.py:284 | `re.search` finds a match exactly when the pattern matches at some offset, and it reports the leftmost one |
| Scraper.CanonicalId | scraper.py:396-404 | a `/node/` url gives `node/` and a rest with no `#`, `?` or `/node/`; otherwise a `/comment/` url gives `comment/` and one path segment; any other url is its own id |
| Scraper.FastDealId | scraper.py:283-286 | the fast id is "unknown" or `node/` followed by one or more digits |
| Scraper.CanonicalNodeId | scraper.py:396-399 | a site url `/node/n`, bare or with a fragment, gives `node/n` |
| Scraper.CanonicalCommentId | scraper.py:400-402 | a site url `/comment/n` without `/node/`, bare or followed by `/` and more path, gives `comment/n` |
| Scraper.FastNodeId | scraper.py:283-286 | the fast scraper reads the same `node/n` from such a site url |
| Scraper.DeepLinkCommentId | scraper.py:410-417 | a comment id is non-empty, has no `#`, and exists only when one of the urls holds `#comment-` |
| Scraper.DeepLinkFromFinal | scraper.py:412-413 | a final url holding `#comment-` gives the text after its last `#`, whatever the requested url |
| Scraper.DeepLinkFromRequested | scraper.py:414-415 | a final url without `#comment-` falls back to the text after the requested url's last `#` |
| Scraper.FastCommentId | scraper.py:321-342 | the id starts with `comment-`; a resolved url with `#comment-` always yields one; every id comes from a `#comment-` or `/comment/` url |
| Scraper.FastCommentFromPath | scraper.py:327-334 | a resolved url `p/comment/<n>` with no `#comment-`, then nothing, `/` or `/redir` and perhaps a query, gives `comment-<n>` whatever the requested url |
| Scraper.FastCommentFromRequested | scraper.py:337-342 | a resolved url with neither `#comment-` nor `/comment/` falls back to the requested url's segment after `/comment/` |
| Scraper.CommentIdsAgree | scraper.py:321-324 | both scrapers read `comment-n` from a `#comment-n` link |
| Scraper.FastTitle | scraper.py:293-296 | a title without the site suffix is only stripped |
| Scraper.FastTitleOfPageTitle | scraper.py:294 | a page title ending in the site suffix gives the stripped part before it |
| Scraper.PriceAt | scraper.py:513 | an amount matches exactly at a `$` followed by a digit; what matches is a prefix of the form `$digits(,digits)*(.digits)?`, and no longer prefix has that form |
| Scraper.FindPrice | scraper.py:512-515 | a price is found exactly when the title has a `$` followed by a digit, and it is the longest text of the price form at the first such `$` |
| Scraper.PriceSearchFirst | scraper.py:513 | the search for a price answers at the first `$` followed by a digit |
| Scraper.PriceOfPlainAmount | scraper.py:512-515 | the first `$n` of a title whose earlier text has no such amount is its price |
| Scraper.CleanDescription | scraper.py:470-476 | no coupon leaves the description as is; a description starting with the coupon loses that prefix and is stripped; otherwise every occurrence is removed (`str.replace`) and the rest stripped; a coupon not in it only strips it |
| Scraper.CouponInsideRemoved | scraper.py:475-476 | a coupon met once, after other text, is cut out and the two sides joined and stripped |
| Scraper.CouponPrefixRemoved | scraper.py:473-474 | a description that starts with the coupon loses it and is stripped |
| Scraper.PageIndex | scraper.py:189-193 | a missing or empty href has no page index |
| Scraper.PageIndexOfQuery | scraper.py:191-193 | `?page=n` has page index n |
| Scraper.MaxPageIndex | scraper.py:183-196 | the largest page index among the pager links, with the link that carries it, or -1 with no target when none has one |
| Scraper.LastPageUrl | scraper.py:204-210 | a query href ends the url, which before its first `?` is the deal url before its first `?`; a site path is the site prefix plus the path; anything else is used as is |
| Scraper.HeaderNumberOf | scraper.py:245-248 | a header "label (n)" gives n |
| Scraper.CommentCount | scraper.py:198-250 | full pages count 100 each plus the last page; without a pager the comments in the page count; when that count is zero and the header holds a number, the count is that number; failing both, zero |
| Scraper.CommentCountTwoPages | scraper.py:198-218 | with one full page before the last, the count is 100 plus the last page's comments |
| Scraper.DedupTags | scraper.py:480-488 | the tags are exactly the non-empty stripped tag texts, without duplicates, in order of first appearance |
| Scraper.VoteCount | scraper.py:490-506 | no vote text, or text that is not an integer, counts zero |
| Scraper.VoteCountOfNumber | scraper.py:491-493 | the text of a natural number is read back as that number |
| Scraper.CouponCode | scraper.py:454-461 | without `strong` elements the box text is the code; with one its stripped text is; with several the first stripped text, ", ", and the code of the rest |
| Scraper.FastScrape | scraper.py:252-381 | a fetch error becomes a failure with the message and url; a `<title>` whose `.string` is None makes `.replace` raise, which becomes a failure with that message and the url; any other page scrapes, as a fast-mode record with the fast id and comment id; no exception escapes |
| Scraper.FastScrapeOfDealPage | scraper.py:283-286 | a page resolved at `SITE/node/n` that scrapes is recorded as `node/n` |
| Scraper.Candidate | scraper.py:52-74 | a candidate has activity text and a non-empty url taken from the entry's links, and its text is the entry's stripped text |
| Scraper.TakeEntries | scraper.py:46-85 | the pass extends the items with unseen urls only, keeps them distinct, and stops only when the limit is reached or every candidate is seen |
| Scraper.AfterScroll | scraper.py:102-131 | a new height resets the retries; a stalled page clicks "Next" after five retries, or counts the retry; ten retries end the feed |
| Scraper.StalledWalkEnds | scraper.py:126-128 | the tenth stalled scroll ends the walk |
| Scraper.UserActivity | scraper.py:16-139 | at most the limit of distinct items, each with activity text and a url; the walk reports why it stopped, and retries never exceed ten |
| Backfill.Classify | fetch_user_activity.py:31-44 | linked comment text gives a comment under its id; otherwise a text with "posted" is the post under the deal id and title; otherwise a placeholder comment under an `unknown-` ref |
| Backfill.FallbackRefsDiffer | fetch_user_activity.py:44 | placeholder refs made at different milliseconds differ |
| Backfill.ProcessItemError | fetch_user_activity.py:22-25 | a fetch error gives False and stores no deal, activity or alert |
| Backfill.ProcessItemStores | fetch_user_activity.py:28-58 | a fetched deal is stored as a manual fetch; the worker returns True exactly when it archived an activity, and then the row under the ref is the entry's |
| Backfill.PostArchivedUnderDealId | fetch_user_activity.py:36-40 | a post on a `SITE/node/n` page that scrapes with a title is archived under `node/n` as a post |
| Backfill.ProcessItem | fetch_user_activity.py:8-62 | the worker's flag and file are those of the processing function |
| Backfill.ArchiveStep | fetch_user_activity.py:105-107 | one worker adds at most one to the completed count |
| Backfill.ArchiveAll | fetch_user_activity.py:104-107 | the completed count never exceeds the number of items |
| Backfill.ArchiveAllKeepsArchive | fetch_user_activity.py:85-107 | the pass never removes an archived activity or a stored deal |
| Backfill.ArchiveItems | fetch_user_activity.py:104-107 | the wait loop computes the sequential pass |
| Backfill.FetchUserActivity | fetch_user_activity.py:67-109 | every discovered item is submitted once, the submitted count respects the limit, and the completed count is the pass's, never above the submitted count |
| Recovery.SelectNoisy | scripts/cleanup_db.py:19-20 | with the deal ids listed once each, exactly the deals whose title is the site name or empty, each once |
| Recovery.SelectReadsDeals | scripts/cleanup_db.py:19-20 | the selection depends only on the deal rows |
| Recovery.RecoverAll | scripts/cleanup_db.py:29-59 | re-scraping never touches alerts, watched tags or activity, and never removes a deal row |
| Recovery.CountRecovered | scripts/cleanup_db.py:52-54 | the count of records re-scraped with a title other than the two generic ones never exceeds the number of records |
| Recovery.RecoverAllCounts | scripts/cleanup_db.py:52-61 | the reported count is the number of records whose re-scrape succeeded with a title other than the two generic ones; a record without a title is not counted |
| Recovery.FailedScrapeSkipped | scripts/cleanup_db.py:44-46 | a failed re-scrape leaves the tables as they were |
| Recovery.RecoveredRowStored | scripts/cleanup_db.py:48-49 | a successful re-scrape of the normalised url is upserted as a live deal |
| Recovery.RetryRecords | scripts/cleanup_db.py:30-59 | the loop computes the recovery pass and its count |
| Recovery.RecoverData | scripts/cleanup_db.py:11-62 | the records are exactly the noisy deals, each once; with none, nothing but the startup cleanup happens; otherwise the file and count are those of the recovery pass |
| Notifier.Partition | notifier.py:12 | without the separator the whole text is the head; with it, head, separator and tail give back the text and the head has no separator |
| Notifier.CommentAndBlankIgnored | notifier.py:11 | blank and `#` lines set nothing |
| Notifier.ParsedLine | notifier.py:11-14 | any other line with a separator sets the stripped key to the stripped, unquoted value |
| Notifier.NoSeparatorIgnored | notifier.py:12-13 | a line without `=` sets nothing |
| Notifier.EmptyHalfIgnored | notifier.py:13 | a line with an empty raw key, or a last line with an empty raw value, sets nothing |
| Notifier.PlainAssignment | notifier.py:10-14 | `KEY=value` plus a line break sets KEY to value, and to the empty string when value is empty |
| Notifier.LastAssignmentWins | notifier.py:10-14 | the last line that assigns a key decides its value |
| Notifier.UnsetKeyKept | notifier.py:10-14 | a key no line assigns keeps its value from the environment, or stays absent |
| Notifier.LoadEnv | notifier.py:8-14 | the environment after loading is that of applying the file's lines in order |
| Notifier.NewNotifier | notifier.py:17-19 | token and chat id are read from the environment |
| Notifier.EnabledIff | notifier.py:18-20 | the notifier is enabled exactly when both the token and the chat id are truthy |
| Notifier.SendMessage | notifier.py:25-52 | no request is made exactly when disabled; an enabled notifier posts the rendered text to the bot url with HTML parsing; the call returns nothing |
| Notifier.NeverConfirms | notifier.py:33-52 | used as the current monitor's notifier, sending is never reported as a success |
| Notifier.TrendingNeverLogged | ozbargain/core/monitor.py:194-207 | with this notifier, the trending pass never logs an alert, and it notifies every candidate without a trending alert, at every pass |

## Left out

- The browser: navigation, filter scripts, scrolling and waits are left out.
  - `scraper.py:141-172`, `ozbargain/core/monitor.py:133-184`, `live_monitor.py:108-173`.
  - Scraping is a parameter from a url to a result.
  - The DOM reads of `_extract_deal_data` (`scraper.py:383-520`) are not modelled on their own. Only its derivations are: canonical id, deep-link comment id, coupon, clean description, tags, votes, price and comment count.
  - The posted date and external domain (`scraper.py:435-451`) are only carried in the record.
- HTTP is left out.
  - The `requests` session and its retry adapter (`scraper.py:257-280`): the fetched page is a `FastResponse` value.
  - The Telegram POST (`notifier.py:48-52`) is the `Request` value that `SendMessage` returns.
- Worker threads: the `ThreadPoolExecutor` in `fetch_user_activity.py:85-107` becomes a sequential pass.
  - Completion order is not modelled; the completed count does not depend on it.
- SQLite mechanics are left out: connections, commits, schema migration (`ozbargain/db/manager.py:19-128`, kept only as `hasActiveColumn`), time zones and datetime text comparison. Timestamps are integer seconds.
- Storage.LookupAllowed: `LIKE` is modelled as a case-sensitive substring test. `%` and `_` in a title are not wildcards, and `LIMIT 1` means any matching node row.
- Storage.StorageManager.GetTrendingDeals: the order among deals of equal heat is left open, as SQLite leaves it.
- Configuration: environment values (`MIN_HEAT_SCORE`, intervals, database path) are constructor parameters.
- Output: printed and logged messages, and the HTML text of Telegram messages, are left out.
  - Notices carry the deal id and alert type; `render` turns a notice into text.
- Clock and randomness are parameters: the wall clock, `clockMs` for the placeholder refs, and the random sleeps, which are left out.
- Feed.ParseRelativeTime: the result is integer seconds. `datetime.now()` and `.isoformat()` are not modelled, and it has no ensures of its own; its behaviour is stated by the `Feed.RelativeTime*` lemmas.
  - An offset within the `timedelta` range is subtracted without checking that `now - delta` stays between the years 1 and 9999, where `datetime` raises and the source falls back to the current time.
- Feed.RedirNormalized: it has no ensures of its own; the suffix case is stated by `Feed.RedirSuffixStripped` and `Feed.RedirAllStripped`, the query case by `Feed.RedirQueryRewritten`.
- Text.ParseInt: only ASCII digits are accepted; Python's `int` also accepts other Unicode decimal digits.
- Scraper.FastDealId, Scraper.PriceAt, Scraper.FindPrice, Scraper.PageIndex and Scraper.HeaderNumber: the patterns `node/(\d+)`, the price pattern, `page=(\d+)` and `\((\d+)\)` match ASCII digits only (`Text.IsDigit`), while Python 3's `\d` on a str matches every Unicode decimal digit; a header "Comments (٣)" gives 3 in the code and no header number in the model.
- Text.Lower: only ASCII letters are folded.
- Monitor.LiveMonitor.Run: sleeps, the poll interval and the 15-second restart delay are not modelled. Its contract states the at-most-once and growth properties across polls and restarts, not the tables after all polls; each poll's new tables are stated by `TrendingCheck` and `ScanFeed`, which it calls in turn.
- Monitor.LiveMonitor.HandleRow: only a session-fatal scraper error propagates. Other failures inside `process_deal` are the scraper's `Crashed(false)` result, and the store and notifier never raise.
- LegacyMonitor.LegacyLiveMonitor.Run: sleeps and the poll interval are not modelled. Its contract states the at-most-once and growth properties across polls, not the tables after all polls; each poll's new tables are stated by `TrendingCheck` and `ScanFeed`, which it calls in turn.
- Monitor.DealTagSet: a scalar tags value is read as one `set` cannot iterate, which raises. No scraper yields a scalar; a string, whose characters `set` would give, is not modelled.
- LegacyMonitor.RowCandidate: any exception before a url is claimed skips the row; the only one modelled is an icon with neither title nor class.
- Scraper.UserActivity: the walk over modelled page states also ends when the states run out (`OutOfPages`).
  - A profile that fails to load is an empty page sequence.
  - The breather pause and the swallowed errors of the "Next" click are left out.
  - Its contract states bounds, distinctness and stop reasons, not the exact item sequence.
- Scraper.FastTitle: its contract covers the title without the site suffix; the suffix case is `FastTitleOfPageTitle`.
- Recovery.TitleRecovered: a `title` key that holds None cannot be told apart from a missing key. The source counts the former and not the latter, and the model counts neither; no scraper sets a None title.
- Notifier.ParsedLine: a key that is blank after stripping is kept as the key ""; the source checks only that the raw key is non-empty, and Python's environment refuses an empty name with an error, which is not modelled.
- `db_manager.py`, imported by `live_monitor.py` and `fetch_user_activity.py`, is not part of this model; both are modelled against the `StorageManager` of `ozbargain/db/manager.py`.
- `ozbargain/core/scraper.py` and `ozbargain/notifier/telegram.py` are not part of this model.
  - The current monitor and the repair script take scraping as a parameter.
  - `Notifier.TrendingNeverLogged` pairs the current monitor with the notifier of `notifier.py`.
- `diag.py`, `scripts/verify_bridge.py` and `tests/test_scraper.py` are diagnostics and tests; they are left out.

## Findings

| source | as written | input that shows it | evidently intended | confidence | as-written member | corrected member |
|---|---|---|---|---|---|---|
| ozbargain/db/manager.py:108-112 | `watched_tags` is created with the single column `tag TEXT PRIMARY KEY`, while `add_watched_tag` and `get_watched_tags` use an `is_active` column | a fresh database, `add_watched_tag("gpu")`, then a live deal tagged "gpu" | the table has the `is_active` column, so a watched tag triggers a priority alert | high, not executed | Monitor.NoPriorityAlertWithoutActiveColumn | Monitor.PriorityAlertWithActiveColumn |
