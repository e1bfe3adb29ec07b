/**
 * The page-side extractors of injected.js (`window.TweetExport.utils`): one
 * selector per field instead of a fallback list, a different URL rule, and no
 * `gifs` list or profile image.
 */
module InjectedExtract {
  import opened Wrappers
  import opened Js
  import opened Dom
  import opened Records
  import opened TweetIds
  import opened Fields
  import opened Seqs

  const TWITTER_ORIGIN: string := "https://twitter.com"

  /** `extractTweetText`: the trimmed text of `[data-testid="tweetText"], div[lang]`, else of the
      whole element, with no length limit. */
  function InjectedTextOf(e: Element): (r: string)
    ensures e.tweetTextOrLang.Some? ==> r == Trim(e.tweetTextOrLang.value)
    ensures e.tweetTextOrLang.None? ==> r == Trim(e.textContent)
  {
    Trim(match e.tweetTextOrLang case Some(t) => t case None => e.textContent)
  }

  /** `node?.textContent || ''`: the text of a query's match, or "" when nothing matched. */
  function TextOrEmpty(o: Option<string>): string
  {
    match o
    case Some(t) => t
    case None => ""
  }

  /** `extractAuthor`: both fields empty without a `User-Name` block; inside one, the trimmed text of
      the first `span` and the username of the first profile link, `@`-prefixed. */
  function InjectedAuthorOf(e: Element): (a: Author)
    ensures a.profileImage.None?
    ensures e.userName.None? <==> a.username == ""
    ensures e.userName.Some? ==> a.username[0] == '@'
    ensures e.userName.None? ==> a.name == ""
    ensures e.userName.Some? ==> a.name == Trim(TextOrEmpty(e.userName.value.firstSpanText))
    ensures e.userName.Some? ==> a.username == NormalizeUsername(Trim(TextOrEmpty(e.userName.value.linkText)))
    ensures e.userName.Some? && e.userName.value.linkText.Some? && StartsWith(Trim(e.userName.value.linkText.value), "@") ==>
      a.username == Trim(e.userName.value.linkText.value)
  {
    match e.userName
    case None => Author("", "", None)
    case Some(b) =>
      Author(Trim(TextOrEmpty(b.firstSpanText)), NormalizeUsername(Trim(TextOrEmpty(b.linkText))), None)
  }

  /** A `User-Name` block whose profile link is missing, or has text that trims to nothing, still
      yields the username "@", so the URL built from it has an empty handle segment. */
  lemma BareAuthorBlock(e: Element, id: string)
    requires e.userName.Some?
    requires e.userName.value.linkText.None? || Trim(e.userName.value.linkText.value) == ""
    requires id != ""
    ensures InjectedAuthorOf(e).username == "@"
    ensures RemoveFirst(InjectedAuthorOf(e).username, '@') == ""
    ensures InjectedUrlOf(InjectedAuthorOf(e), id) != ""
  {
    var link := e.userName.value.linkText;
    if link.None? {
      TrimOfTrimmed("");
    }
    assert Trim(TextOrEmpty(link)) == "";
    var a := InjectedAuthorOf(e);
    assert a.username == NormalizeUsername("");
    NormalizeUsernameIdempotent("");
    assert a.username == "@";
  }

  /** `extractTimestamp`: the `datetime` attribute of the first `time` element, or its raw text when
      the attribute is missing or empty; the current time when there is no `time` element. The
      attribute is passed through unparsed, so this never throws. */
  function InjectedTimestampOf(e: Element, isoNow: string): (r: string)
    ensures e.time.None? ==> r == isoNow
    ensures e.time.Some? && e.time.value.datetime.Some? && e.time.value.datetime.value != "" ==> r == e.time.value.datetime.value
    ensures e.time.Some? && (e.time.value.datetime.None? || e.time.value.datetime.value == "") ==> r == e.time.value.text
  {
    match e.time
    case None => isoNow
    case Some(t) => if t.datetime.Some? && t.datetime.value != "" then t.datetime.value else t.text
  }

  /** `extractMetric`: the first element matching either selector, its text or else its
      `aria-label`, then the `[\d,]+` parse; 0 when nothing matches. */
  function InjectedMetricOf(p: MetricProbe): (r: JsNumber)
    ensures p.firstOfEither.None? ==> r == Finite(0)
    ensures r.NaN? || r.value >= 0
    ensures p.firstOfEither.Some? && p.firstOfEither.value.text == "" && p.firstOfEither.value.ariaLabel.Some? ==>
      r == ParseCount(p.firstOfEither.value.ariaLabel.value)
    ensures p.firstOfEither.Some? && p.firstOfEither.value.text == "" && p.firstOfEither.value.ariaLabel.None? ==> r == Finite(0)
  {
    match p.firstOfEither
    case None => Finite(0)
    case Some(n) =>
      var text := if n.text != "" then n.text else match n.ariaLabel case Some(l) => l case None => "";
      ExtractNumberRange(text);
      ParseCount(text)
  }

  /** The `aria-label` is read only when the text is empty: a label with a count is not consulted
      when the element has text, even text without digits. */
  lemma InjectedMetricPrefersText(n: MetricNode, p: MetricProbe)
    requires p.firstOfEither == Some(n) && n.text != ""
    ensures InjectedMetricOf(p) == ParseCount(n.text)
  {
  }

  function InjectedMetricsOf(e: Element): (r: Metrics)
    ensures forall n :: n in [r.replies, r.retweets, r.likes, r.views] ==> n.NaN? || n.value >= 0
    ensures e.reply.firstOfEither.None? ==> r.replies == Finite(0)
    ensures e.retweet.firstOfEither.None? ==> r.retweets == Finite(0)
    ensures e.like.firstOfEither.None? ==> r.likes == Finite(0)
    ensures e.view.firstOfEither.None? ==> r.views == Finite(0)
  {
    Metrics(InjectedMetricOf(e.reply), InjectedMetricOf(e.retweet), InjectedMetricOf(e.like), InjectedMetricOf(e.view))
  }

  /** `extractTweetUrl`: a URL is built only from a username and an id, never copied from a link. */
  function InjectedUrlOf(author: Author, id: string): (r: string)
    ensures r == "" <==> author.username == "" || id == ""
    ensures r != "" ==> StartsWith(r, TWITTER_ORIGIN + "/")
  {
    if author.username != "" && id != "" then
      TWITTER_ORIGIN + "/" + RemoveFirst(author.username, '@') + "/status/" + id
    else ""
  }

  /** JavaScript's `a || b` on strings: `a` unless it is the (falsy) empty string. */
  function OrElse(a: string, b: string): string
  {
    if a != "" then a else b
  }

  /** `extractTweetId` of injected.js: the id of the first matching status link, else one `||` chain
      over the element's own `data-tweet-id`, the attribute of `closest('[data-tweet-id]')` (the
      element itself when it carries the attribute) and the synthetic id. A missing attribute
      (`null`) is falsy, like "". */
  function InjectedTweetIdOf(e: Element, nowMs: nat): (id: string)
    ensures id != []
  {
    match FirstStatusId(e.statusLinks)
    case Some(d) => d
    case None =>
      var closest := if e.tweetIdAttr.Some? then e.tweetIdAttr else e.ancestorTweetIdAttr;
      OrElse(OrElse(TextOrEmpty(e.tweetIdAttr), TextOrEmpty(closest)), GenerateTweetId(e.textContent, nowMs))
  }

  /** The record `extractTweetData` returns for an element. */
  function InjectedRecordOf(e: Element, clock: Clock): (t: TweetRecord)
    ensures t.id == InjectedTweetIdOf(e, clock.idMillis) && t.id != ""
    ensures !t.media.withGifs && t.author.profileImage.None?
    ensures t.url == "" <==> e.userName.None?
  {
    var id := InjectedTweetIdOf(e, clock.idMillis);
    var author := InjectedAuthorOf(e);
    TweetRecord(id, InjectedTextOf(e), author, InjectedTimestampOf(e, clock.isoNow),
      InjectedMetricsOf(e), MediaOf(e, false), InjectedUrlOf(author, id))
  }

  /** `extractTweetData(element)`: the element may be `null` (a failed `querySelector`), in which
      case the first property access throws and the catch returns null. With an element, no step
      throws and the id is never empty, so a record always comes back. */
  function InjectedTweetDataOf(e: Option<Element>, clock: Clock): (r: Option<TweetRecord>)
    ensures r.None? <==> e.None?
    ensures r.Some? ==> r.value == InjectedRecordOf(e.value, clock)
  {
    match e
    case None => None
    case Some(el) => Some(InjectedRecordOf(el, clock))
  }

  /** The two scripts' `extractTweetId` agree on one unchanged element snapshot read at one
      clock, although the content script tests the attributes first and the synthetic id after,
      and the page script folds all three into one `||` chain. For a page-given id that is the
      same key for both kinds of record; a synthetic id read by the two scripts comes from
      different clocks and, once the export button is added, from different text. */
  lemma ScriptsAgreeOnId(e: Element, nowMs: nat)
    ensures InjectedTweetIdOf(e, nowMs) == TweetIdOf(e, nowMs)
  {
  }

  /** `extractVisibleTweets`: one record per element of `[data-testid="tweet"], article`, in document
      order; the i-th element reads the clock `clocks(i)`. */
  function VisibleTweets(elems: seq<Element>, clocks: nat -> Clock): (r: seq<TweetRecord>)
    ensures |r| == |elems|
  {
    MapWithIndex(elems, (e, i) => InjectedRecordOf(e, clocks(i)))
  }

  /** Nothing is dropped and nothing is reordered: the i-th record is the i-th element's, and
      carries that element's id. */
  lemma VisibleTweetsPointwise(elems: seq<Element>, clocks: nat -> Clock, i: nat)
    requires i < |elems|
    ensures VisibleTweets(elems, clocks)[i] == InjectedRecordOf(elems[i], clocks(i))
    ensures VisibleTweets(elems, clocks)[i].id == TweetIdOf(elems[i], clocks(i).idMillis)
  {
    MapWithIndexAt(elems, (e, i) => InjectedRecordOf(e, clocks(i)), i);
    ScriptsAgreeOnId(elems[i], clocks(i).idMillis);
  }

  /** The `forEach` that pushes each non-null record. */
  method ExtractVisibleTweets(elems: seq<Element>, clocks: nat -> Clock) returns (tweets: seq<TweetRecord>)
    ensures tweets == VisibleTweets(elems, clocks)
  {
    tweets := [];
    var i := 0;
    while i < |elems|
      invariant 0 <= i <= |elems|
      invariant tweets == VisibleTweets(elems[..i], clocks)
    {
      assert elems[..i + 1][..i] == elems[..i];
      var data := InjectedTweetDataOf(Some(elems[i]), clocks(i));
      if data.Some? {
        tweets := tweets + [data.value];
      }
      i := i + 1;
    }
    assert elems[..i] == elems;
  }
}
