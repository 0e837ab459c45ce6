/** The deal record the scraper hands to the rest of the system (a Python dict with a fixed
    set of keys), and the two collaborators that the monitors, the backfill and the repair script take as parameters. */
module Records {
  import opened Wrappers

  /** The `tags` value of a record. The scrapers always produce a list; `upsert_live_deal`
      also accepts a missing key or any other value, which it serialises by its `str` text
      and truthiness. */
  datatype Tags = TagsAbsent | TagList(items: seq<string>) | TagScalar(text: string, truthy: bool)

  /** One scraped deal. An optional field is `None` when the key is missing (or holds None);
      the counters default to 0 as `data.get(key, 0)` does; `url` is always set by both scrapers. */
  datatype DealData = DealData(
    id: Option<string>,
    url: string,
    title: Option<string>,
    price: Option<string>,
    description: Option<string>,
    couponCode: Option<string>,
    tags: Tags,
    upvotes: int,
    downvotes: int,
    commentCount: int,
    timeStr: Option<string>,
    user: Option<string>,
    action: Option<string>,
    kind: Option<string>,
    isExpired: bool,
    postedDate: Option<string>,
    externalDomain: Option<string>,
    originalUrl: Option<string>,
    eventTimestamp: Option<int>,
    linkedComment: Option<string>,
    linkedCommentId: Option<string>)

  /** What a scrape call gives back: a record, the `{"error": ..., "url": ...}` dict, or an
      exception that escapes the scraper (for the browser scraper, a page that cannot be opened;
      `sessionFatal` when the message says the browser itself has been closed). */
  datatype ScrapeResult =
    | Scraped(data: DealData)
    | ScrapeFailed(error: string, url: string)
    | Crashed(sessionFatal: bool)

  /** The scraper collaborator, as seen by one call site. */
  type Scrape = string -> ScrapeResult

  /** One notification handed to the notifier: the deal it is about and the alert type. */
  datatype Notice = Notice(dealId: string, alertType: string)

  /** The notifier collaborator: whether `send_message` reported success for a notice. */
  type Send = Notice -> bool

  const PRIORITY: string := "priority"
  const TRENDING: string := "trending"
  const SITE: string := "https://www.ozbargain.com.au"
}
