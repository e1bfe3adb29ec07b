/**
 * `handleFetchTweets` (content.js): an order-preserving `filter` over the
 * indexed records, driven by optional date bounds and the literal-substring
 * reply and retweet heuristics of `isReply` and `isRetweet`.
 */
module TweetFilter {
  import opened Js
  import opened Seqs
  import opened Records

  /** The request options; an empty date string stands for an option that is absent (both are falsy). */
  datatype Criteria = Criteria(dateFrom: string, dateTo: string, includeReplies: bool, includeRetweets: bool, includeMedia: bool)

  /** `tweet.text.startsWith('@') || tweet.text.includes('Replying to')` */
  predicate IsReply(t: TweetRecord)
    ensures t.text != [] && t.text[0] == '@' ==> IsReply(t)
    ensures t.text == [] ==> !IsReply(t)
  {
    StartsWith(t.text, "@") || Includes(t.text, "Replying to")
  }

  /** `tweet.text.includes('RT @') || tweet.text.startsWith('Retweeted')` */
  predicate IsRetweet(t: TweetRecord)
    ensures |t.text| < 4 ==> !IsRetweet(t)
  {
    Includes(t.text, "RT @") || StartsWith(t.text, "Retweeted")
  }

  /** The date test. `parseDate` stands for `new Date(s)` read as epoch milliseconds, NaN for an
      invalid date; `<` and `>` on two dates compare those numbers, and any comparison with NaN is false. */
  predicate InDateRange(t: TweetRecord, c: Criteria, parseDate: string -> JsNumber)
    ensures c.dateFrom == "" && c.dateTo == "" ==> InDateRange(t, c, parseDate)
    ensures parseDate(t.timestamp).NaN? ==> InDateRange(t, c, parseDate)
    ensures (c.dateFrom != "" && parseDate(t.timestamp).Finite? && parseDate(c.dateFrom).Finite?
             && parseDate(t.timestamp).value < parseDate(c.dateFrom).value) ==> !InDateRange(t, c, parseDate)
    ensures (c.dateTo != "" && parseDate(t.timestamp).Finite? && parseDate(c.dateTo).Finite?
             && parseDate(c.dateTo).value < parseDate(t.timestamp).value) ==> !InDateRange(t, c, parseDate)
  {
    if c.dateFrom == "" && c.dateTo == "" then true
    else
      var d := parseDate(t.timestamp);
      !(c.dateFrom != "" && Less(d, parseDate(c.dateFrom))) && !(c.dateTo != "" && Less(parseDate(c.dateTo), d))
  }

  /** The `filter` callback. */
  predicate Keep(t: TweetRecord, c: Criteria, parseDate: string -> JsNumber)
    ensures c.includeReplies && c.includeRetweets ==> (Keep(t, c, parseDate) <==> InDateRange(t, c, parseDate))
    ensures t.text == [] ==> (Keep(t, c, parseDate) <==> InDateRange(t, c, parseDate))
    ensures c.dateFrom == "" && c.dateTo == "" && !c.includeReplies && t.text != [] && t.text[0] == '@' ==> !Keep(t, c, parseDate)
  {
    InDateRange(t, c, parseDate)
    && !(!c.includeReplies && IsReply(t))
    && !(!c.includeRetweets && IsRetweet(t))
  }

  /** `allTweets.filter(...)` */
  function FetchTweets(snapshot: seq<TweetRecord>, c: Criteria, parseDate: string -> JsNumber): (r: seq<TweetRecord>)
    ensures |r| <= |snapshot|
    ensures forall t :: t in r <==> t in snapshot && Keep(t, c, parseDate)
  {
    Filter(snapshot, t => Keep(t, c, parseDate))
  }

  /** The result keeps the relative order of the snapshot. */
  lemma FetchPreservesOrder(snapshot: seq<TweetRecord>, c: Criteria, parseDate: string -> JsNumber)
    ensures IsSubsequence(FetchTweets(snapshot, c, parseDate), snapshot)
  {
    FilterIsSubsequence(snapshot, t => Keep(t, c, parseDate));
  }

  /** A record is dropped exactly when one of the four exclusion rules applies to it. */
  lemma DroppedExactly(t: TweetRecord, c: Criteria, parseDate: string -> JsNumber)
    ensures !Keep(t, c, parseDate) <==>
      (c.dateFrom != "" && Less(parseDate(t.timestamp), parseDate(c.dateFrom)))
      || (c.dateTo != "" && Less(parseDate(c.dateTo), parseDate(t.timestamp)))
      || (!c.includeReplies && IsReply(t))
      || (!c.includeRetweets && IsRetweet(t))
  {
  }

  /** With only `includeReplies` off, exactly the replies are excluded, and no others. */
  lemma ReplyFilterExact(snapshot: seq<TweetRecord>, parseDate: string -> JsNumber, t: TweetRecord)
    requires t in snapshot
    ensures t in FetchTweets(snapshot, Criteria("", "", false, true, true), parseDate) <==> !IsReply(t)
  {
  }

  /** With only `includeRetweets` off, exactly the retweets are excluded, and no others. */
  lemma RetweetFilterExact(snapshot: seq<TweetRecord>, parseDate: string -> JsNumber, t: TweetRecord)
    requires t in snapshot
    ensures t in FetchTweets(snapshot, Criteria("", "", true, false, true), parseDate) <==> !IsRetweet(t)
  {
  }

  /** A timestamp that does not parse is never excluded by the date bounds, and neither is any
      record when a bound does not parse. */
  lemma UnparseableDatesPass(t: TweetRecord, c: Criteria, parseDate: string -> JsNumber)
    requires parseDate(t.timestamp).NaN?
      || ((c.dateFrom == "" || parseDate(c.dateFrom).NaN?) && (c.dateTo == "" || parseDate(c.dateTo).NaN?))
    ensures InDateRange(t, c, parseDate)
  {
  }

  /** `includeMedia` is accepted but never consulted. */
  lemma IncludeMediaIgnored(t: TweetRecord, c: Criteria, parseDate: string -> JsNumber)
    ensures Keep(t, c, parseDate) == Keep(t, c.(includeMedia := !c.includeMedia), parseDate)
  {
  }

  /** With no date bounds and both kinds of tweet included, everything is returned as it is. */
  lemma PermissiveCriteriaKeepAll(snapshot: seq<TweetRecord>, media: bool, parseDate: string -> JsNumber)
    ensures FetchTweets(snapshot, Criteria("", "", true, true, media), parseDate) == snapshot
  {
    FilterAll(snapshot, t => Keep(t, Criteria("", "", true, true, media), parseDate));
  }

  // Epoch milliseconds of some UTC midnights and of noon on 31 January 2024.
  const JAN_01_2024: int := 1704067200000
  const JAN_15_2024: int := 1705276800000
  const JAN_31_2024: int := 1706659200000
  const JAN_31_2024_NOON: int := 1706702400000
  const FEB_01_2024: int := 1706745600000

  /** The January 2024 window: a date-only bound parses to midnight UTC, so a record on 15 January
      is kept and one on 1 February is dropped, while one at noon on 31 January is dropped as well:
      the upper bound is inclusive only of its first instant. */
  lemma JanuaryWindow(parseDate: string -> JsNumber, t: TweetRecord)
    requires parseDate("2024-01-01") == Finite(JAN_01_2024)
    requires parseDate("2024-01-31") == Finite(JAN_31_2024)
    requires !IsReply(t) && !IsRetweet(t)
    ensures parseDate(t.timestamp) == Finite(JAN_15_2024) ==> Keep(t, Criteria("2024-01-01", "2024-01-31", true, true, true), parseDate)
    ensures parseDate(t.timestamp) == Finite(FEB_01_2024) ==> !Keep(t, Criteria("2024-01-01", "2024-01-31", true, true, true), parseDate)
    ensures parseDate(t.timestamp) == Finite(JAN_31_2024_NOON) ==> !Keep(t, Criteria("2024-01-01", "2024-01-31", true, true, true), parseDate)
  {
  }
}
