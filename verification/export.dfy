/**
 * The export envelope and the download filename, built the same way by the
 * page script's `exportTweets` (injected.js) and the background worker's
 * `handleTweetExport` (background.js). Both read the clock twice: once for the
 * envelope's `exportDate` and once for the filename, so the two ISO strings are
 * separate inputs.
 */
module Export {
  import opened Wrappers
  import opened Js
  import opened Records

  const FILENAME_PREFIX: string := "tweets_export_"
  const FILENAME_SUFFIX: string := ".json"

  /** `toISOString().slice(0, 19)` keeps the date and the time down to the second. */
  const STAMP_LENGTH: nat := 19

  /** `{exportDate, tweetCount, tweets}` before `JSON.stringify`. */
  datatype Envelope = Envelope(exportDate: string, tweetCount: nat, tweets: seq<TweetRecord>)

  /** The count a reader of the file sees is the number of tweets in it. */
  predicate WellFormed(env: Envelope)
  {
    env.tweetCount == |env.tweets|
  }

  function MakeEnvelope(tweets: seq<TweetRecord>, isoDate: string): (env: Envelope)
    ensures WellFormed(env)
    ensures env.tweets == tweets && env.exportDate == isoDate
  {
    Envelope(isoDate, |tweets|, tweets)
  }

  /** `tweets_export_${iso.slice(0, 19).replace(/:/g, '-')}.json` */
  function ExportFilename(iso: string): (r: string)
    ensures StartsWith(r, FILENAME_PREFIX)
    ensures r[|r| - |FILENAME_SUFFIX|..] == FILENAME_SUFFIX
    ensures |r| == |FILENAME_PREFIX| + (if |iso| < STAMP_LENGTH then |iso| else STAMP_LENGTH) + |FILENAME_SUFFIX|
    ensures ':' !in r
  {
    var stamp := ReplaceAll(Truncate(iso, STAMP_LENGTH), ':', '-');
    var r := FILENAME_PREFIX + stamp + FILENAME_SUFFIX;
    assert r[..|FILENAME_PREFIX|] == FILENAME_PREFIX;
    assert r[|r| - |FILENAME_SUFFIX|..] == FILENAME_SUFFIX;
    assert forall i :: 0 <= i < |r| ==> r[i] != ':' by {
      forall i | 0 <= i < |r|
        ensures r[i] != ':'
      {
        if i < |FILENAME_PREFIX| {
          assert r[i] == FILENAME_PREFIX[i];
        } else if i < |FILENAME_PREFIX| + |stamp| {
          assert r[i] == stamp[i - |FILENAME_PREFIX|];
        } else {
          assert r[i] == FILENAME_SUFFIX[i - |FILENAME_PREFIX| - |stamp|];
        }
      }
    }
    r
  }

  /** Between the prefix and the suffix sit the first 19 characters of the ISO string, each ':'
      turned into '-' and every other character kept. */
  lemma FilenameStamp(iso: string, i: nat)
    requires i < |iso| && i < STAMP_LENGTH
    ensures ExportFilename(iso)[|FILENAME_PREFIX| + i] == if iso[i] == ':' then '-' else iso[i]
  {
    var stamp := ReplaceAll(Truncate(iso, STAMP_LENGTH), ':', '-');
    assert ExportFilename(iso) == FILENAME_PREFIX + stamp + FILENAME_SUFFIX;
    assert Truncate(iso, STAMP_LENGTH)[i] == iso[i];
  }

  /** A standard ISO string (`YYYY-MM-DDTHH:mm:ss.sssZ`, 24 characters) gives a 38-character name. */
  lemma StandardIsoFilenameLength(iso: string)
    requires |iso| == 24
    ensures |ExportFilename(iso)| == 38
  {
  }

  /** The shape of `toISOString()` that matters here: at least 19 characters, with ':' at positions
      13 and 16 and nowhere else among the first 19. */
  predicate IsoShaped(iso: string)
  {
    |iso| >= STAMP_LENGTH && iso[13] == ':' && iso[16] == ':'
    && forall i :: 0 <= i < STAMP_LENGTH && i != 13 && i != 16 ==> iso[i] != ':'
  }

  /** Reads the date and time back out of a 38-character export filename. */
  function StampOf(name: string): (r: string)
    requires |name| == |FILENAME_PREFIX| + STAMP_LENGTH + |FILENAME_SUFFIX|
    ensures |r| == STAMP_LENGTH
  {
    name[|FILENAME_PREFIX|..|FILENAME_PREFIX| + STAMP_LENGTH][13 := ':'][16 := ':']
  }

  /** For an ISO-shaped time the filename loses nothing: the date and time to the second can be
      read back from it. */
  lemma FilenameRoundTrip(iso: string)
    requires IsoShaped(iso)
    ensures StampOf(ExportFilename(iso)) == iso[..STAMP_LENGTH]
  {
    var r := StampOf(ExportFilename(iso));
    forall i | 0 <= i < STAMP_LENGTH
      ensures r[i] == iso[i]
    {
      FilenameStamp(iso, i);
    }
  }

  // ---------------------------------------------------------------------------
  // The two producers

  /** What is handed to the download: the envelope (serialised with `JSON.stringify` into a data
      URL) and the filename. */
  datatype Download = Download(envelope: Envelope, filename: string)

  /** The reply the background worker sends back: `{success: true, result: {filename, tweetCount}}`
      or `{success: false, error}`. */
  datatype Reply = Succeeded(filename: string, tweetCount: nat) | Failed(error: string)

  datatype BackgroundExport = BackgroundExport(download: Download, reply: Reply)

  /** `handleTweetExport(tweets)` and the listener around it. `downloadError` stands for a rejection
      of `chrome.downloads.download` with that message; the download is requested either way. */
  function HandleTweetExport(tweets: seq<TweetRecord>, isoDate: string, isoName: string, downloadError: Option<string>): (r: BackgroundExport)
    ensures WellFormed(r.download.envelope) && r.download.envelope.tweets == tweets
    ensures r.download.envelope.exportDate == isoDate && r.download.filename == ExportFilename(isoName)
    ensures r.reply.Succeeded? <==> downloadError.None?
    ensures r.reply.Succeeded? ==> r.reply.tweetCount == |tweets| && r.reply.filename == r.download.filename
    ensures r.reply.Failed? ==> r.reply.error == downloadError.value
  {
    var download := Download(MakeEnvelope(tweets, isoDate), ExportFilename(isoName));
    match downloadError
    case Some(err) => BackgroundExport(download, Failed(err))
    case None => BackgroundExport(download, Succeeded(download.filename, |tweets|))
  }

  /** The page script's `exportTweets(tweets)`: the same envelope and filename, clicked as a link,
      then a notification naming the count. */
  datatype PageExport = PageExport(download: Download, notification: string)

  function ExportTweets(tweets: seq<TweetRecord>, isoDate: string, isoName: string): (r: PageExport)
    ensures WellFormed(r.download.envelope) && r.download.envelope.tweets == tweets
    ensures r.download.envelope.exportDate == isoDate && r.download.filename == ExportFilename(isoName)
    ensures r.notification == "Exported " + DecimalString(|tweets|) + " tweets successfully!"
  {
    PageExport(Download(MakeEnvelope(tweets, isoDate), ExportFilename(isoName)), "Exported " + DecimalString(|tweets|) + " tweets successfully!")
  }

  /** The two producers agree: given the same tweets and clock readings, the page and the background
      worker hand the same envelope and filename to the download. */
  lemma ProducersAgree(tweets: seq<TweetRecord>, isoDate: string, isoName: string, downloadError: Option<string>)
    ensures ExportTweets(tweets, isoDate, isoName).download == HandleTweetExport(tweets, isoDate, isoName, downloadError).download
  {
  }
}
