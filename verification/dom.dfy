/**
 * A page element as the scripts see it. CSS selector matching is not modelled:
 * each element carries the already-resolved result of every query the scripts
 * run against it (the first match of a `querySelector`, all matches of a
 * `querySelectorAll` in document order, an attribute, the text content).
 */
module Dom {
  import opened Wrappers

  /** A link matched by `a[href*="/status/"]`: its resolved `href` property and its raw `href` attribute. */
  datatype Link = Link(href: string, rawHref: string)

  /** A time-like element: its `datetime` attribute, the outcome of `new Date(datetime).toISOString()`
      (None when the date is invalid and the call throws a RangeError), and its text content. */
  datatype TimeNode = TimeNode(datetime: Option<string>, datetimeIso: Option<string>, text: string)

  /** An element found by an engagement-metric query: its text content and its `aria-label`. */
  datatype MetricNode = MetricNode(text: string, ariaLabel: Option<string>)

  /** The queries for one metric kind (reply, retweet, like or view): the first `[data-testid="kind"]`,
      the first `[aria-label*="kind"]`, and the first element matching either selector in document order. */
  datatype MetricProbe = MetricProbe(byTestId: Option<MetricNode>, byAriaLabel: Option<MetricNode>, firstOfEither: Option<MetricNode>)

  /** An `img` element: its resolved `src` and its `alt` (empty when absent). */
  datatype Img = Img(src: string, alt: string)

  /** A `video` element: its `src` property (empty when absent), the `src` of its first `source` child
      if it has one, and its `poster` (empty when absent). */
  datatype VideoNode = VideoNode(src: string, sourceSrc: Option<string>, poster: string)

  /** The `[data-testid="User-Name"]` block: text of its first `span` and of its first `a[href^="/"]`. */
  datatype UserNameBlock = UserNameBlock(firstSpanText: Option<string>, linkText: Option<string>)

  /** A candidate tweet element. `node` is the element's identity: two values denote the same DOM
      element exactly when they are equal. */
  datatype Element = Element(
    node: nat,
    textContent: string,
    // a[href*="/status/"], all matches
    statusLinks: seq<Link>,
    // the element's own data-tweet-id attribute, and that of its nearest proper ancestor having one
    tweetIdAttr: Option<string>,
    ancestorTweetIdAttr: Option<string>,
    // content.js fallback lists: text content of the first match of each selector, in list order
    textHits: seq<Option<string>>,
    nameHits: seq<Option<string>>,
    usernameHits: seq<Option<string>>,
    // src of the first img[src*="profile"], img[alt*="profile"] and img, in that order
    profileImageHits: seq<Option<string>>,
    // first match of `time`, `a[href*="/status/"] time` and `[datetime]`
    time: Option<TimeNode>,
    statusTime: Option<TimeNode>,
    datetimeNode: Option<TimeNode>,
    reply: MetricProbe,
    retweet: MetricProbe,
    like: MetricProbe,
    view: MetricProbe,
    // img[src*="pbs.twimg.com"] and video, all matches
    mediaImages: seq<Img>,
    videos: seq<VideoNode>,
    // injected.js: text of the first `[data-testid="tweetText"], div[lang]`, and the User-Name block
    tweetTextOrLang: Option<string>,
    userName: Option<UserNameBlock>
  )

  /** The clock readings one record extraction takes: `Date.now()` when an id is synthesised,
      `new Date().toISOString()` when no time element is found, and `Date.now()` again when the
      URL code recomputes the id. */
  datatype Clock = Clock(idMillis: nat, isoNow: string, urlIdMillis: nat)
}
