/** What both live monitors read from the `/live` activity feed and how they turn it into an
    event: the row record, the relative-time parser, the absolute-url rule, the `/redir`
    normalisation, the merge of an event into a scraped record and the trending timer. */
module Feed {
  import opened Wrappers
  import opened Text
  import opened Records

  /** The action icon of a row: its `title` and `class` attributes (None when absent). */
  datatype Icon = Icon(title: Option<string>, cls: Option<string>)

  /** The subject link of a row: its `href` attribute and its text. */
  datatype Link = Link(href: Option<string>, text: string)

  /** One `<tr>` of the feed: the text of the time, user and type cells, the action icon and the
      subject link (None when the cell has no such element). */
  datatype LiveRow = LiveRow(timeText: string, userText: string, icon: Option<Icon>, link: Option<Link>, typeText: string)

  /** The event dict built from a row. `title` is None where the dict has no `title` key. */
  datatype EventData = EventData(title: Option<string>, originalUrl: string, timestamp: int, timeStr: string,
                                 user: string, action: string, kind: string)

  /** Only this many rows from the top of the feed are looked at per poll. */
  const ROWS_PER_POLL: nat := 20

  function TopRows(rows: seq<LiveRow>): (r: seq<LiveRow>)
    ensures |r| <= ROWS_PER_POLL && |r| <= |rows| && r == rows[..|r|]
    ensures |rows| >= ROWS_PER_POLL ==> |r| == ROWS_PER_POLL
    ensures |rows| < ROWS_PER_POLL ==> r == rows
  {
    if |rows| <= ROWS_PER_POLL then rows else rows[..ROWS_PER_POLL]
  }

  // ---------------------------------------------------------------------------------------
  // Relative time

  /** The `timedelta` for a count and a unit word, in seconds: the first of sec, min, hour, day
      found in the word decides the unit; any other word gives no offset. */
  function Offset(v: int, unit: string): (d: int)
    ensures Contains(unit, "sec") ==> d == v
    ensures !Contains(unit, "sec") && Contains(unit, "min") ==> d == v * 60
    ensures !Contains(unit, "sec") && !Contains(unit, "min") && Contains(unit, "hour") ==> d == v * 3600
    ensures !Contains(unit, "sec") && !Contains(unit, "min") && !Contains(unit, "hour") && Contains(unit, "day") ==> d == v * 86400
    ensures !Contains(unit, "sec") && !Contains(unit, "min") && !Contains(unit, "hour") && !Contains(unit, "day") ==> d == 0
  {
    if Contains(unit, "sec") then v
    else if Contains(unit, "min") then v * 60
    else if Contains(unit, "hour") then v * 3600
    else if Contains(unit, "day") then v * 86400
    else 0
  }

  /** A `timedelta` holds at most 999999999 days either way; building a larger one raises
      `OverflowError`. */
  const MAX_TIMEDELTA_DAYS: int := 999999999

  /** Whether an offset of `secs` seconds fits in a `timedelta`, whose day count, the floor of
      `secs / 86400`, must lie within the bound either way. */
  predicate InTimedeltaRange(secs: int) {
    -MAX_TIMEDELTA_DAYS * 86400 <= secs < (MAX_TIMEDELTA_DAYS + 1) * 86400
  }

  /** `now - timedelta(seconds=d)`, or `now` when the `timedelta` cannot be built. */
  function ShiftBack(now: int, d: int): int {
    if InTimedeltaRange(d) then now - d else now
  }

  /** The feed text as `parse_relative_time` looks at it: stripped and lower-cased. */
  function Normalized(text: string): string {
    Lower(Strip(text))
  }

  /** `parse_relative_time(time_str)`, as seconds on the caller's clock `now`; an error inside the
      `try` (an unparseable count, an offset too large for a `timedelta`) gives `now`. */
  function ParseRelativeTime(text: string, now: int): int {
    var t := Normalized(text);
    if Contains(t, "now") then now else ShiftByWords(Tokens(t), now)
  }

  /** The count-and-unit reading of the words of a text without "now". */
  function ShiftByWords(parts: seq<string>, now: int): int {
    if |parts| < 2 then now
    else
      match ParseInt(parts[0])
      case None => now
      case Some(v) => ShiftBack(now, Offset(v, parts[1]))
  }

  /** "now" anywhere in the normalised text, or fewer than two words, give `now`. */
  lemma RelativeTimeNow(text: string, now: int)
    requires Contains(Normalized(text), "now") || |Tokens(Normalized(text))| < 2
    ensures ParseRelativeTime(text, now) == now
  {
  }

  /** An unparseable count gives `now`. */
  lemma RelativeTimeUnparsed(text: string, now: int)
    requires |Tokens(Normalized(text))| >= 2 && ParseInt(Tokens(Normalized(text))[0]).None?
    ensures ParseRelativeTime(text, now) == now
  {
  }

  /** Otherwise the result is the count times the unit before `now`, unless that offset does not
      fit in a `timedelta`, when it is `now`. */
  lemma RelativeTimeOffset(text: string, now: int)
    requires !Contains(Normalized(text), "now") && |Tokens(Normalized(text))| >= 2
    requires ParseInt(Tokens(Normalized(text))[0]).Some?
    ensures var d := Offset(ParseInt(Tokens(Normalized(text))[0]).value, Tokens(Normalized(text))[1]);
      ParseRelativeTime(text, now) == if InTimedeltaRange(d) then now - d else now
  {
    ShiftByWordsOffset(Tokens(Normalized(text)), now);
  }

  /** The count-and-unit reading shifts by the unit's offset when it fits a `timedelta`. */
  lemma ShiftByWordsOffset(parts: seq<string>, now: int)
    requires |parts| >= 2 && ParseInt(parts[0]).Some?
    ensures var d := Offset(ParseInt(parts[0]).value, parts[1]);
      ShiftByWords(parts, now) == if InTimedeltaRange(d) then now - d else now
  {
  }

  /** Offsets of up to 999999999 days either way fit; "1000000000 day" does not. */
  lemma TimedeltaRange(v: int)
    ensures -MAX_TIMEDELTA_DAYS <= v <= MAX_TIMEDELTA_DAYS ==> InTimedeltaRange(v * 86400)
    ensures !InTimedeltaRange(Offset(1000000000, "day"))
  {
    assert Offset(1000000000, "day") == 1000000000 * 86400 by {
      AbsentFirstChar("day", "sec");
      AbsentFirstChar("day", "min");
      AbsentFirstChar("day", "hour");
      assert StartsWith("day", "day");
    }
  }

  /** No upper-case ASCII letter. */
  predicate IsLowerText(s: string) {
    forall k :: 0 <= k < |s| ==> !('A' <= s[k] <= 'Z')
  }

  /** A feed text "<digits> <unit> <word>" contains "now" only if the unit or the last word does. */
  lemma NoNowInFeedText(d: string, unit: string, w: string)
    requires forall k :: 0 <= k < |d| ==> IsDigit(d[k])
    requires !Contains(unit, "now") && !Contains(w, "now")
    ensures !Contains(d + " " + unit + " " + w, "now")
  {
    var text := d + " " + unit + " " + w;
    var off := |d| + 1;
    var off2 := off + |unit| + 1;
    assert forall k :: 0 <= k < |d| ==> text[k] == d[k];
    assert text[|d|] == ' ' && text[off2 - 1] == ' ';
    assert forall k :: off <= k < off + |unit| ==> text[k] == unit[k - off];
    assert forall k :: off2 <= k < |text| ==> text[k] == w[k - off2];
    ContainsAt(unit, "now");
    ContainsAt(w, "now");
    forall i | 0 <= i ensures !OccursAt(text, "now", i) {
      if i + 3 > |text| {
      } else if i < |d| {
        assert IsDigit(text[i]);
      } else if i < off {
        assert text[i] == ' ';
      } else if i + 3 > off + |unit| && i < off2 {
        var sp := off + |unit|;
        assert text[sp] == ' ' && i <= sp < i + 3;
        assert text[i..i + 3][sp - i] == ' ';
      } else if i < off2 {
        assert unit[i - off..i - off + 3] == text[i..i + 3];
        assert !OccursAt(unit, "now", i - off);
      } else {
        assert w[i - off2..i - off2 + 3] == text[i..i + 3];
        assert !OccursAt(w, "now", i - off2);
      }
    }
    ContainsAt(text, "now");
  }

  /** A feed text "<digits> <unit> <word>" of lower-case words is its own normalisation. */
  lemma FeedTextNormalized(d: string, unit: string, w: string)
    requires IsWord(d) && forall k :: 0 <= k < |d| ==> IsDigit(d[k])
    requires IsWord(w) && IsLowerText(unit) && IsLowerText(w)
    ensures Normalized(d + " " + unit + " " + w) == d + " " + unit + " " + w
  {
    var text := d + " " + unit + " " + w;
    var off := |d| + 1;
    var off2 := off + |unit| + 1;
    assert forall k :: 0 <= k < |d| ==> text[k] == d[k];
    assert text[|d|] == ' ' && text[off2 - 1] == ' ';
    assert forall k :: off <= k < off + |unit| ==> text[k] == unit[k - off];
    assert forall k :: off2 <= k < |text| ==> text[k] == w[k - off2];
    assert text[0] == d[0] && text[|text| - 1] == w[|w| - 1];
    StripWhereFixed(text, IsSpace);
    LowerFixed(text);
  }

  /** The first two words of "<count> <unit> <rest>" are the count and the unit. */
  lemma FeedTextWords(d: string, unit: string, rest: string)
    requires IsWord(d) && IsWord(unit)
    ensures var parts := Tokens(d + " " + unit + " " + rest); |parts| >= 2 && parts[0] == d && parts[1] == unit
  {
    assert d + " " + unit + " " + rest == d + " " + (unit + " " + rest);
    TokensWordThen(d, unit + " " + rest);
    TokensWordThen(unit, rest);
  }

  /** A feed text "<n> <unit> <word>" ("5 mins ago") parses back to `n` units before now. */
  lemma RelativeTimeRoundTrip(n: nat, unit: string, w: string, now: int)
    requires IsWord(unit) && IsLowerText(unit) && !Contains(unit, "now")
    requires IsWord(w) && IsLowerText(w) && !Contains(w, "now")
    ensures ParseRelativeTime(NatToString(n) + " " + unit + " " + w, now) ==
      if InTimedeltaRange(Offset(n, unit)) then now - Offset(n, unit) else now
  {
    var d := NatToString(n);
    var text := d + " " + unit + " " + w;
    NoNowInFeedText(d, unit, w);
    FeedTextNormalized(d, unit, w);
    FeedTextWords(d, unit, w);
    ParseNatToString(n);
    RelativeTimeOffset(text, now);
  }

  // ---------------------------------------------------------------------------------------
  // URLs

  /** A site-relative href gets the site prefix; any other href is kept. */
  function AbsoluteUrl(href: string): (url: string)
    ensures StartsWith(href, "/") ==> url == SITE + href
    ensures !StartsWith(href, "/") ==> url == href
    ensures EndsWith(url, href)
  {
    if StartsWith(href, "/") then SITE + href else href
  }

  /** The `/redir` normalisation of the cleanup script: a url ending in `/redir` loses every
      `/redir`; otherwise every `/redir?` becomes `?`. */
  function RedirNormalized(url: string): string {
    if EndsWith(url, "/redir") then Replace(url, "/redir", "")
    else if Contains(url, "/redir?") then Replace(url, "/redir?", "?")
    else url
  }

  /** The monitor's variant: the same rewriting, applied only to urls containing `/node/`. */
  function NodeRedirNormalized(url: string): (r: string)
    ensures Contains(url, "/node/") ==> r == RedirNormalized(url)
    ensures !Contains(url, "/node/") ==> r == url
  {
    if Contains(url, "/node/") then RedirNormalized(url) else url
  }

  /** A url that does not mention `/redir` is left alone by both normalisations. */
  lemma RedirNormalizedAbsent(url: string)
    requires !Contains(url, "/redir")
    ensures RedirNormalized(url) == url && NodeRedirNormalized(url) == url
  {
    if EndsWith(url, "/redir") {
      assert OccursAt(url, "/redir", |url| - 6);
      ContainsAt(url, "/redir");
    }
    if Contains(url, "/redir?") {
      ContainsAt(url, "/redir?");
      var i :| OccursAt(url, "/redir?", i);
      assert url[i..i + 6] == url[i..i + 7][..6];
      assert OccursAt(url, "/redir", i);
      ContainsAt(url, "/redir");
    }
  }

  /** A url whose only `/redir` is a trailing one loses exactly that suffix. */
  lemma RedirSuffixStripped(base: string)
    requires forall i :: 0 <= i < |base| ==> !OccursAt(base + "/redir", "/redir", i)
    ensures RedirNormalized(base + "/redir") == base
  {
    var url := base + "/redir";
    assert url[|url| - 6..] == "/redir";
    assert url == base + "/redir" + "";
    SplitFirst(base, "/redir", "");
    assert Split("", "/redir") == [""];
    assert Split(url, "/redir") == [base, ""];
    assert Join([base, ""], "") == base + "" + "";
  }

  /** Neither separator of the normalisation has its leading `/` again further on. */
  lemma RedirSeparators()
    ensures "/redir"[0] !in "/redir"[1..] && "/redir?"[0] !in "/redir?"[1..]
  {
  }

  /** `p + "/redir?" + q` does not end in `/redir` when `q` does not contain it: the last six
      characters either lie in `q` or include the `?`. */
  lemma QueryUrlNotRedirSuffix(p: string, q: string)
    requires !Contains(q, "/redir")
    ensures !EndsWith(p + "/redir?" + q, "/redir")
  {
    var url := p + "/redir?" + q;
    if |q| >= 6 {
      assert url[|url| - 6..] == q[|q| - 6..];
      ContainsAt(q, "/redir");
      assert !OccursAt(q, "/redir", |q| - 6);
    } else {
      assert url[|url| - 6..][5 - |q|] == url[|p| + 6] == '?';
    }
  }

  /** Splitting `p + "/redir?" + q` at `/redir?` gives `p` and `q` when neither contains `/redir`. */
  lemma QueryUrlSplit(p: string, q: string)
    requires !Contains(p, "/redir") && !Contains(q, "/redir")
    ensures Split(p + "/redir?" + q, "/redir?") == [p, q]
  {
    var sep := "/redir?";
    assert "/redir" + "?" == sep;
    LongerContains(p, "/redir", "?");
    LongerContains(q, "/redir", "?");
    RedirSeparators();
    NoEarlyOccurrence(p, sep, q);
    SplitFirst(p, sep, q);
    SplitAbsent(q, sep);
  }

  /** A url `p + "/redir?" + q` with no other `/redir` has that one dropped before its query. */
  lemma RedirQueryRewritten(p: string, q: string)
    requires !Contains(p, "/redir") && !Contains(q, "/redir")
    ensures RedirNormalized(p + "/redir?" + q) == p + "?" + q
  {
    var url := p + "/redir?" + q;
    QueryUrlNotRedirSuffix(p, q);
    assert OccursAt(url, "/redir?", |p|);
    ContainsAt(url, "/redir?");
    QueryUrlSplit(p, q);
    assert Join([p, q], "?") == p + "?" + q;
  }

  /** Pieces free of `/redir` joined by it, with a trailing empty piece, split back apart. */
  lemma RedirPiecesSplit(pieces: seq<string>)
    requires pieces != [] && forall j :: 0 <= j < |pieces| ==> !Contains(pieces[j], "/redir")
    ensures Split(Join(pieces + [""], "/redir"), "/redir") == pieces + [""]
  {
    RedirSeparators();
    SplitJoinTrailing(pieces, "/redir");
  }

  /** A url ending in `/redir` loses every `/redir` the split finds: written as its
      `/redir`-free pieces joined by `/redir`, it becomes their concatenation. */
  lemma RedirAllStripped(pieces: seq<string>)
    requires pieces != [] && forall j :: 0 <= j < |pieces| ==> !Contains(pieces[j], "/redir")
    ensures RedirNormalized(Join(pieces + [""], "/redir")) == Join(pieces + [""], "")
  {
    JoinEndsEmpty(pieces, "/redir");
    var url := Join(pieces + [""], "/redir");
    assert EndsWith(url, "/redir");
    RedirPiecesSplit(pieces);
  }

  /** Two different row urls, `base` and `base/redir`, normalise to the same deal url when `base`
      is a `/node/` url without `/redir`. */
  lemma DistinctUrlsShareTarget(base: string)
    requires Contains(base, "/node/") && !Contains(base, "/redir")
    ensures base != base + "/redir"
    ensures NodeRedirNormalized(base) == base && NodeRedirNormalized(base + "/redir") == base
  {
    RedirNormalizedAbsent(base);
    RedirSeparators();
    NoEarlyOccurrence(base, "/redir", "");
    assert base + "/redir" + "" == base + "/redir";
    RedirSuffixStripped(base);
    ContainsAt(base, "/node/");
    var i :| OccursAt(base, "/node/", i);
    assert (base + "/redir")[i..i + 6] == base[i..i + 6];
    assert OccursAt(base + "/redir", "/node/", i);
    ContainsAt(base + "/redir", "/node/");
  }

  /** Removing `/redir` can bring a new one together: "/re/redirdir/redir" becomes "/redir". */
  lemma RedirNormalizedCanLeaveRedir()
    ensures RedirNormalized("/re/redirdir/redir") == "/redir"
  {
    var sep := "/redir";
    ContainsAt("/re", sep);
    AbsentFirstChar("dir", sep);
    var all := ["/re", "dir"] + [""];
    assert all[1..] == ["dir", ""] && all[1..][1..] == [""];
    assert Join(["dir", ""], sep) == "dir" + sep + "";
    assert Join(all, sep) == "/re" + sep + ("dir" + sep + "");
    assert Join(all, sep) == "/re/redirdir/redir";
    assert Join(["dir", ""], "") == "dir";
    assert Join(all, "") == "/re" + "" + "dir";
    assert Join(all, "") == "/redir";
    RedirAllStripped(["/re", "dir"]);
  }

  // ---------------------------------------------------------------------------------------
  // Merging an event into a scraped record

  /** `deal_data.update(event_data)` when an event is given: every key the event carries takes the
      event's value, every other field keeps the scraped one. */
  function Merge(d: DealData, event: Option<EventData>): (m: DealData)
    ensures event.None? ==> m == d
    ensures event.Some? ==>
      && m.originalUrl == Some(event.value.originalUrl) && m.eventTimestamp == Some(event.value.timestamp)
      && m.timeStr == Some(event.value.timeStr) && m.user == Some(event.value.user)
      && m.action == Some(event.value.action) && m.kind == Some(event.value.kind)
      && m.title == (if event.value.title.Some? then event.value.title else d.title)
    ensures m.id == d.id && m.url == d.url && m.tags == d.tags && m.isExpired == d.isExpired
    ensures m.upvotes == d.upvotes && m.downvotes == d.downvotes && m.commentCount == d.commentCount
    ensures m.price == d.price && m.description == d.description && m.couponCode == d.couponCode
    ensures m.postedDate == d.postedDate && m.externalDomain == d.externalDomain
  {
    match event
    case None => d
    case Some(e) =>
      d.(title := if e.title.Some? then e.title else d.title,
         originalUrl := Some(e.originalUrl),
         eventTimestamp := Some(e.timestamp),
         timeStr := Some(e.timeStr),
         user := Some(e.user),
         action := Some(e.action),
         kind := Some(e.kind))
  }

  /** The event timestamp never reaches the store: merging events that differ only in it gives
      records that differ only in it. */
  lemma MergeTimestampOnly(d: DealData, e: EventData, ts: int)
    ensures Merge(d, Some(e)).(eventTimestamp := None) == Merge(d, Some(e.(timestamp := ts))).(eventTimestamp := None)
  {
  }

  // ---------------------------------------------------------------------------------------
  // Trending timer

  /** `datetime.now() - last_trending_check > timedelta(minutes=interval)`. */
  predicate TrendingDue(now: int, last: int, intervalMinutes: int) {
    now - last > intervalMinutes * 60
  }
}
