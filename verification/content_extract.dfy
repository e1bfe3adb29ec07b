/**
 * The content script's field extractors (`TweetExportContent.extract*` in
 * content.js): each field is read through a list of selectors tried in order,
 * with a fixed default when none matches.
 */
module ContentExtract {
  import opened Wrappers
  import opened Js
  import opened Seqs
  import opened Dom
  import opened Records
  import opened TweetIds
  import opened Fields

  const TWITTER_ORIGIN: string := "https://twitter.com"

  /** The number of characters the text fallback keeps. */
  const TEXT_FALLBACK_LIMIT: nat := 280

  // ---------------------------------------------------------------------------
  // Text

  /** `extractTweetText`: the trimmed text of the first selector that matches, else the
      element's whole trimmed text cut to 280 characters. */
  function TextOf(e: Element): (r: string)
    ensures FirstSome(e.textHits).Some? ==> r == Trim(FirstSome(e.textHits).value)
    ensures FirstSome(e.textHits).None? ==> |r| <= TEXT_FALLBACK_LIMIT && StartsWith(Trim(e.textContent), r)
    ensures FirstSome(e.textHits).None? && |Trim(e.textContent)| <= TEXT_FALLBACK_LIMIT ==> r == Trim(e.textContent)
    ensures FirstSome(e.textHits).None? && |Trim(e.textContent)| > TEXT_FALLBACK_LIMIT ==>
      r == Trim(e.textContent)[..TEXT_FALLBACK_LIMIT]
  {
    match FirstSome(e.textHits)
    case Some(t) => Trim(t)
    case None => Truncate(Trim(e.textContent), TEXT_FALLBACK_LIMIT)
  }

  /** Only the fallback is cut: the text of a matching selector is kept whole, however long. */
  lemma TextLimitOnlyOnFallback(e: Element, t: string)
    requires e.textHits != [] && e.textHits[0] == Some(t)
    ensures TextOf(e) == Trim(t)
  {
  }

  // ---------------------------------------------------------------------------
  // Author

  function FirstTrimmed(hits: seq<Option<string>>): (r: string)
    ensures FirstSome(hits).None? ==> r == ""
    ensures FirstSome(hits).Some? ==> r == Trim(FirstSome(hits).value)
  {
    match FirstSome(hits)
    case Some(t) => Trim(t)
    case None => ""
  }

  /** `extractAuthorInfo`: name and username from the first matching selector of their lists (the
      username with an `@` in front), the `src` of the first profile-like image, and "" for each
      field that nothing matched. */
  function AuthorOf(e: Element): (a: Author)
    ensures a.name == FirstTrimmed(e.nameHits)
    ensures a.username == "" <==> FirstSome(e.usernameHits).None?
    ensures a.username != "" ==> a.username[0] == '@'
    ensures FirstSome(e.usernameHits).Some? ==> a.username == NormalizeUsername(FirstTrimmed(e.usernameHits))
    ensures FirstSome(e.usernameHits).Some? && StartsWith(FirstTrimmed(e.usernameHits), "@") ==> a.username == FirstTrimmed(e.usernameHits)
    ensures a.profileImage.Some?
    ensures FirstSome(e.profileImageHits).None? ==> a.profileImage.value == ""
    ensures FirstSome(e.profileImageHits).Some? ==> a.profileImage == FirstSome(e.profileImageHits)
  {
    var username := if FirstSome(e.usernameHits).Some? then NormalizeUsername(FirstTrimmed(e.usernameHits)) else "";
    var image := match FirstSome(e.profileImageHits) case Some(src) => src case None => "";
    Author(FirstTrimmed(e.nameHits), username, Some(image))
  }

  // ---------------------------------------------------------------------------
  // Timestamp

  /** The first match of `time`, `a[href*="/status/"] time` and `[datetime]`. */
  function TimeNodeOf(e: Element): (r: Option<TimeNode>)
    ensures r.Some? <==> e.time.Some? || e.statusTime.Some? || e.datetimeNode.Some?
    ensures e.time.Some? ==> r == e.time
    ensures e.time.None? && e.statusTime.Some? ==> r == e.statusTime
    ensures e.time.None? && e.statusTime.None? ==> r == e.datetimeNode
  {
    FirstSomeOfThree(e.time, e.statusTime, e.datetimeNode);
    FirstSome([e.time, e.statusTime, e.datetimeNode])
  }

  /** The time node has a non-empty `datetime` that `new Date(...)` cannot read, so that
      `toISOString()` throws. */
  predicate BadDatetime(t: TimeNode)
  {
    t.datetime.Some? && t.datetime.value != "" && t.datetimeIso.None?
  }

  /** `extractTimestamp`: None stands for the exception `toISOString` throws on an invalid date. */
  function TimestampOf(e: Element, isoNow: string): (r: Option<string>)
    ensures r.None? <==> TimeNodeOf(e).Some? && BadDatetime(TimeNodeOf(e).value)
    ensures TimeNodeOf(e).None? ==> r == Some(isoNow)
    ensures TimeNodeOf(e).Some? && TimeNodeOf(e).value.datetime.Some? && TimeNodeOf(e).value.datetime.value != "" ==>
      r == TimeNodeOf(e).value.datetimeIso
    ensures TimeNodeOf(e).Some? && (TimeNodeOf(e).value.datetime.None? || TimeNodeOf(e).value.datetime.value == "") ==>
      r == Some(Trim(TimeNodeOf(e).value.text))
  {
    match TimeNodeOf(e)
    case None => Some(isoNow)
    case Some(t) =>
      if t.datetime.Some? && t.datetime.value != "" then t.datetimeIso
      else Some(Trim(t.text))
  }

  // ---------------------------------------------------------------------------
  // Metrics

  /** `first || second`, then `extractNumber` of the element's text, and 0 when neither matched. */
  function MetricOf(first: Option<MetricNode>, second: Option<MetricNode>): (r: JsNumber)
    ensures first.Some? ==> r == ExtractNumber(first.value.text)
    ensures first.None? && second.Some? ==> r == ExtractNumber(second.value.text)
    ensures first.None? && second.None? ==> r == Finite(0)
  {
    match if first.Some? then first else second
    case None => Finite(0)
    case Some(n) => ExtractNumber(n.text)
  }

  /** `extractMetrics`: replies, retweets and likes try the `data-testid` query first; views try
      the `aria-label` query first. */
  function MetricsOf(e: Element): (r: Metrics)
    ensures e.reply.byTestId.None? && e.reply.byAriaLabel.None? ==> r.replies == Finite(0)
    ensures e.retweet.byTestId.None? && e.retweet.byAriaLabel.None? ==> r.retweets == Finite(0)
    ensures e.like.byTestId.None? && e.like.byAriaLabel.None? ==> r.likes == Finite(0)
    ensures e.view.byTestId.None? && e.view.byAriaLabel.None? ==> r.views == Finite(0)
    ensures e.view.byAriaLabel.None? && e.view.byTestId.Some? ==> r.views == ExtractNumber(e.view.byTestId.value.text)
  {
    Metrics(
      MetricOf(e.reply.byTestId, e.reply.byAriaLabel),
      MetricOf(e.retweet.byTestId, e.retweet.byAriaLabel),
      MetricOf(e.like.byTestId, e.like.byAriaLabel),
      MetricOf(e.view.byAriaLabel, e.view.byTestId))
  }

  /** Every count is a non-negative number or NaN, and the selector order differs for views. */
  lemma MetricsOrder(e: Element)
    ensures var m := MetricsOf(e);
      forall n :: n in [m.replies, m.retweets, m.likes, m.views] ==> n.NaN? || n.value >= 0
    ensures e.reply.byTestId.Some? ==> MetricsOf(e).replies == ExtractNumber(e.reply.byTestId.value.text)
    ensures e.view.byAriaLabel.Some? ==> MetricsOf(e).views == ExtractNumber(e.view.byAriaLabel.value.text)
  {
  }

  // ---------------------------------------------------------------------------
  // URL

  /** `extractTweetUrl`: the origin plus the raw `href` of the first status link; failing that, a
      URL built from the username and a freshly extracted id (which reads the clock again when the
      id is synthetic); failing that, "". */
  function UrlOf(e: Element, urlIdMillis: nat): (r: string)
    ensures r == "" || StartsWith(r, TWITTER_ORIGIN)
    ensures r == "" <==> e.statusLinks == [] && AuthorOf(e).username == ""
    ensures e.statusLinks != [] ==> r == TWITTER_ORIGIN + e.statusLinks[0].rawHref
  {
    if e.statusLinks != [] then TWITTER_ORIGIN + e.statusLinks[0].rawHref
    else
      var id := TweetIdOf(e, urlIdMillis);
      var username := AuthorOf(e).username;
      if id != "" && username != "" then
        TWITTER_ORIGIN + "/" + RemoveFirst(username, '@') + "/status/" + id
      else ""
  }

  /** When the URL is built rather than copied, it carries the record's own id whenever that id
      comes from the page or both clock readings agree; a synthetic id read at two different times
      can make the URL name a different id than the record. */
  lemma UrlCarriesRecordId(e: Element, clock: Clock)
    requires e.statusLinks == [] && AuthorOf(e).username != ""
    requires DataTweetId(e) != "" || clock.idMillis == clock.urlIdMillis
    ensures UrlOf(e, clock.urlIdMillis) ==
      TWITTER_ORIGIN + "/" + RemoveFirst(AuthorOf(e).username, '@') + "/status/" + TweetIdOf(e, clock.idMillis)
  {
  }

  // ---------------------------------------------------------------------------
  // The whole record

  /** `extractTweetData`: None when a field extractor throws (only an unreadable `datetime` can),
      in which case `processTweet` stores nothing. The id check `tweetData.id ? … : null` never
      fails, since every id is non-empty. */
  function TweetDataOf(e: Element, clock: Clock): (r: Option<TweetRecord>)
    ensures r.None? <==> TimestampOf(e, clock.isoNow).None?
    ensures r.Some? ==> r.value.id == TweetIdOf(e, clock.idMillis) && r.value.id != ""
    ensures r.Some? ==> r.value.timestamp == TimestampOf(e, clock.isoNow).value
    ensures r.Some? ==> r.value.media.withGifs && r.value.author.profileImage.Some?
  {
    match TimestampOf(e, clock.isoNow)
    case None => None
    case Some(ts) =>
      Some(TweetRecord(
        TweetIdOf(e, clock.idMillis),
        TextOf(e),
        AuthorOf(e),
        ts,
        MetricsOf(e),
        MediaOf(e, true),
        UrlOf(e, clock.urlIdMillis)))
  }

  /** Every field of a record is a function of the element and the clock: extracting the same
      element twice at the same clock gives the same record. Records extracted at different clocks
      differ at most in the id, timestamp and URL, and only when those fall back to the clock. */
  lemma TweetDataClockIndependent(e: Element, c1: Clock, c2: Clock)
    requires FirstStatusId(e.statusLinks).Some? || DataTweetId(e) != ""
    requires TimeNodeOf(e).Some?
    ensures TweetDataOf(e, c1) == TweetDataOf(e, c2)
  {
    StructuralIdIgnoresClock(e, c1.urlIdMillis, c2.urlIdMillis);
  }

  /** `extractTweetText` with its selector loop. */
  method ExtractTweetText(e: Element) returns (text: string)
    ensures text == TextOf(e)
  {
    var hit := FirstMatch(e.textHits);
    text := if hit.Some? then Trim(hit.value) else Truncate(Trim(e.textContent), TEXT_FALLBACK_LIMIT);
  }

  /** `extractAuthorInfo` with its three selector loops. */
  method ExtractAuthorInfo(e: Element) returns (author: Author)
    ensures author == AuthorOf(e)
  {
    var nameHit := FirstMatch(e.nameHits);
    var usernameHit := FirstMatch(e.usernameHits);
    var imageHit := FirstMatch(e.profileImageHits);
    author := Author(
      if nameHit.Some? then Trim(nameHit.value) else "",
      if usernameHit.Some? then NormalizeUsername(Trim(usernameHit.value)) else "",
      Some(if imageHit.Some? then imageHit.value else ""));
  }

  /** `extractTimestamp`; None is the exception thrown on an unreadable `datetime`. */
  method ExtractTimestamp(e: Element, isoNow: string) returns (timestamp: Option<string>)
    ensures timestamp == TimestampOf(e, isoNow)
  {
    var timeHit := FirstMatch([e.time, e.statusTime, e.datetimeNode]);
    if timeHit.None? {
      timestamp := Some(isoNow);
    } else if timeHit.value.datetime.Some? && timeHit.value.datetime.value != "" {
      timestamp := timeHit.value.datetimeIso;
    } else {
      timestamp := Some(Trim(timeHit.value.text));
    }
  }

  /** `extractTweetUrl`, which extracts the author and, without a status link, the id again. */
  method ExtractTweetUrl(e: Element, urlIdMillis: nat) returns (url: string)
    ensures url == UrlOf(e, urlIdMillis)
  {
    if e.statusLinks != [] {
      url := TWITTER_ORIGIN + e.statusLinks[0].rawHref;
    } else {
      var id := ExtractTweetId(e, urlIdMillis);
      var author := ExtractAuthorInfo(e);
      url := if id != "" && author.username != "" then
        TWITTER_ORIGIN + "/" + RemoveFirst(author.username, '@') + "/status/" + id
      else "";
    }
  }

  /** `extractTweetData`: the fields in the order the object literal reads them; the exception of
      `extractTimestamp` makes the whole record None. */
  method ExtractTweetData(e: Element, clock: Clock) returns (r: Option<TweetRecord>)
    ensures r == TweetDataOf(e, clock)
  {
    var id := ExtractTweetId(e, clock.idMillis);
    var text := ExtractTweetText(e);
    var author := ExtractAuthorInfo(e);
    var timestamp := ExtractTimestamp(e, clock.isoNow);
    if timestamp.None? {
      return None;
    }
    var media := ExtractMedia(e, true);
    var url := ExtractTweetUrl(e, clock.urlIdMillis);
    r := Some(TweetRecord(id, text, author, timestamp.value, MetricsOf(e), media, url));
  }
}
