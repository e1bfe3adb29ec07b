# X-export-tools: a verified model of the tweet capture-and-export engine

This Dafny project models the logic of the TweetExport browser extension for Twitter/X. It covers six parts.

- **The content script** (`TweetExportContent`, content.js):
  - a `Map` from tweet id to record, modelled as an insertion-ordered map;
  - the `isProcessing` gate;
  - candidate discovery over four selectors;
  - the cold-start scan;
  - the `MutationObserver` callback, given as explicit batches of added nodes;
  - the message handlers that read the index.
- **The field extractors** of content.js and of the page script (injected.js):
  - the `/status/(\d+)` id search;
  - the `data-tweet-id` fallback;
  - the synthetic id, a 32-bit hash fold plus the clock's last six digits;
  - the `[\d,]+` metric parser;
  - `@`-normalisation of usernames;
  - the 280-character text cut;
  - media lists, timestamps and URLs.
- **The fetch filter**: an order-preserving selection by date bounds and the reply/retweet text heuristics.
- **The bulk-selection state machine** (`bulkExport`): the `isSelecting` flag and the `selectedTweets` set, an insertion-ordered sequence with no duplicates.
- **The export envelope and download filename**, built by the page script and by the background worker, together with the worker's reply.
- **The options page** (`TweetExportSettings`): defaults, validation, the live input checks, the camelCase→kebab-case key mapping, the spread merge on load, save and reset.

An element is a datatype that carries the already-resolved results of every selector query the scripts run against it. Clock readings are inputs:
- `Date.now()` for a synthetic id;
- `new Date().toISOString()`;
- a second `Date.now()` when the URL code recomputes the id.

A batch of elements reads one clock per element, from a `nat -> Clock` stream. Date parsing for the filter is a function parameter.

`TweetExportContent`, `bulkExport` and `TweetExportSettings` update their fields in place, so they are classes. Their loops are methods, proved against specification functions. The extractors, the filter, the envelope, the validator and the key mapping are functions, and lemmas relate them.

The cold-start scan is modelled as written:
- `init` installs the observer, then `scanExistingTweets` closes the gate and sets a timer (`ScanExistingTweets`), so the constructor returns with the gate closed;
- every observer callback delivered before the timer fires finds the gate closed and stores nothing (`OnMutations`);
- the timer callback processes the page's candidates while the gate is still closed, so each `processTweet` returns at once, and only then opens the gate (`ColdStartTimerFires`);
- so neither the tweets already on the page nor those added before the timer fires are ever stored.

`PageLifecycle` states the whole sequence. `ColdStartBatchNotEmpty` shows that the discarded batch is not empty in general.

Three behaviours of the page script that a reader might not expect are modelled as the code has them:

- `exportSelected` (injected.js:266-285) leaves `selectedTweets` and selection mode as they are after a download, and `BulkSelection.BulkExport.ExportSelected` changes no state.
- `startSelection` (injected.js:165-169) keeps whatever `selectedTweets` already holds, and `StartSelection` keeps it too.
- `selectAll` (injected.js:253-263) adds the ids of the tweets re-extracted from the visible page, each read with its own clock, not the ids in the content script's index.

## Model

| member | source | states |
|---|---|---|
| TweetMap.Empty | content.js:5 | `new Map()` is a valid map with no keys and size 0 |
| TweetMap.Get | content.js:451 | `map.get(k)` finds a value exactly when `k` is a key of the map, which for a valid map is exactly when `k` is in the iteration order |
| TweetMap.Set | content.js:68 | `map.set(k, v)`: `k` maps to `v` and every other key keeps its value; `k` joins the end of the iteration order only when it was absent |
| TweetMap.SetTwice | content.js:68 | a second `set` of the same key wins; the size grows by one only for a new key |
| TweetMap.SizeIsKeyCount | content.js:396 | `map.size` is the number of distinct keys |
| TweetMap.ValuesOf | content.js:417 | the values are listed in key order, one per key |
| TweetMap.ValuesAfterSetNew | content.js:417 | setting a new key appends its value to `Array.from(map.values())` |
| TweetMap.ValuesAfterSetExisting | content.js:417 | overwriting a key replaces its value in place, at the position the key already had |
| ContentScript.ExtractTweetsFromElement | content.js:38-59 | the two nested push-if-absent loops return exactly the de-duplicated concatenation of the four selectors' matches |
| ContentScript.CandidatesShape | content.js:42-58 | the candidates hold no element twice and hold every element some selector matched, in first-seen order (selector order, then match order) |
| ContentScript.Upsert | content.js:62-74 | a record is stored under its id (last write wins) and every other key is untouched; a failed extraction (None) leaves the index unchanged; the size grows by at most one |
| ContentScript.UpsertIdempotent | content.js:66-68 | storing the same extraction twice is storing it once |
| ContentScript.ProcessSameElementTwice | content.js:62-74 | processing one unchanged element snapshot twice at one clock leaves one entry for its id; the size grows by one exactly when a record came back and its id was new |
| ContentScript.ReprocessingAtOtherClock | content.js:97-117 | re-processing an element at another clock adds nothing when its id comes from the page; with a synthetic id whose clock tails differ, the element is stored twice (also content.js:309-316) |
| ContentScript.IndexIdsDistinct | content.js:68 | the index values carry pairwise distinct ids (also content.js:5) |
| ContentScript.UpsertAll | content.js:394 | processing a batch keeps the index valid and grows it by at most the batch length |
| ContentScript.UpsertAllAppend | content.js:394 | processing two batches in turn is processing their concatenation (also content.js:25) |
| ContentScript.UpsertAllLastWins | content.js:66-68 | after a batch, an id holds the record of its last occurrence in the batch |
| ContentScript.ExtractedAt | content.js:394 | candidate i of a batch starting at clock `first` is extracted with `clocks(first + i)` |
| ContentScript.ExtractedSnoc | content.js:394 | extending a batch by one candidate extends its extractions by that candidate's record |
| ContentScript.ExtractedAppend | content.js:21-27 | the second part of a split batch reads the clocks from where the first part stopped |
| ContentScript.UpsertExtractedAppend | content.js:21-27 | processing two consecutive candidate lists is processing their concatenation with one clock stream |
| ContentScript.NodeCandidates | content.js:22-26 | added nodes none of which is an element yield no candidates |
| ContentScript.NodeCandidatesMembers | content.js:22-26 | the candidates of a list of added nodes are exactly the elements discovered under one of its element nodes |
| ContentScript.MutationCandidates | content.js:21-27 | mutation records that add no nodes yield no candidates |
| ContentScript.MutationCandidatesMembers | content.js:21-27 | the candidates of a list of mutation records are exactly the elements discovered under an added node of one of the records |
| ContentScript.NodeCandidatesSnoc | content.js:22-26 | the candidates of one more added node are appended to the candidates so far |
| ContentScript.MutationCandidatesSnoc | content.js:21-27 | the candidates of one more mutation are appended to the candidates so far |
| ContentScript.AddedNodeStep | content.js:22-26 | one more added node's batch extends the processing of the nodes before it |
| ContentScript.MutationStep | content.js:21-27 | one more mutation's batch extends the processing of the mutations before it |
| ContentScript.ColdStartBatchNotEmpty | content.js:389-397 | a page already showing one tweet with a readable timestamp yields one record when its batch is processed with the gate open, which the gated scan throws away |
| ContentScript.TweetExportContent.constructor | content.js:3-16 | a new content script has an empty index and returns with the gate closed, since `init` ends in the cold-start scan |
| ContentScript.TweetExportContent.ProcessTweet | content.js:62-74 | with the gate closed nothing changes; with it open the element's record (if any) is upserted |
| ContentScript.TweetExportContent.ProcessBatch | content.js:394 | the `forEach` over candidates is the batch upsert of their records, or nothing while the gate is closed |
| ContentScript.TweetExportContent.ScanExistingTweets | content.js:389-392 | the synchronous part of the scan closes the gate and leaves the index unchanged |
| ContentScript.TweetExportContent.ColdStartTimerFires | content.js:392-397 | the timer callback processes the page's de-duplicated candidates (nothing is stored when the gate is still closed, as it is after a scan), then opens the gate; the logged size is the index size |
| ContentScript.TweetExportContent.ProcessAddedNode | content.js:23-26 | an element node's de-duplicated candidates are processed in order, and dropped while the gate is closed; any other node is skipped; the gate is unchanged |
| ContentScript.TweetExportContent.ProcessAddedNodes | content.js:22-27 | one mutation's added nodes are processed in order, the clock stream continuing across nodes; nothing is stored while the gate is closed |
| ContentScript.TweetExportContent.OnMutations | content.js:20-29 | the observer callback is the batch upsert of every candidate under every added element node, in order, when the gate is open, and changes nothing when it is closed |
| ContentScript.TweetExportContent.PageTweets | content.js:416-418 | `getPageTweets` returns one value per key, each stored under its own id |
| ContentScript.TweetExportContent.HandleFetchTweets | content.js:424-447 | the result is a subsequence of the page tweets, in their order, holding exactly those that pass the filter |
| ContentScript.TweetExportContent.HandleExportTweet | content.js:450-457 | an absent id fails with "Tweet not found"; a present one sends exactly its record (also content.js:369-375) |
| ContentScript.PageLifecycle | content.js:3-35 | after construction, an observer callback before the cold-start timer, the timer and a later callback, the timer logs size 0, the gate is open, and the index holds exactly what the later callback stored: neither the tweets already on the page nor the early ones are kept (also content.js:389-397) |
| TweetFilter.IsReply | content.js:460-462 | a text starting with "@" is a reply, and an empty text never is |
| TweetFilter.IsRetweet | content.js:464-466 | a text shorter than "RT @" is never a retweet |
| TweetFilter.InDateRange | content.js:430-437 | with no bounds every record is in range; an unparseable timestamp is in range whatever the bounds; a parseable timestamp before a parseable `dateFrom` or after a parseable `dateTo` is out |
| TweetFilter.Keep | content.js:428-444 | with replies and retweets included only the date test decides; an empty text is judged by the date alone; with no bounds and replies excluded, an "@"-prefixed text is dropped |
| TweetFilter.FetchTweets | content.js:428-446 | a record is in the result exactly when it is in the snapshot and passes the callback |
| TweetFilter.FetchPreservesOrder | content.js:428 | `filter` keeps the snapshot order |
| TweetFilter.DroppedExactly | content.js:428-444 | a record is dropped exactly when it is before `dateFrom`, after `dateTo`, an excluded reply, or an excluded retweet (also content.js:460-466) |
| TweetFilter.ReplyFilterExact | content.js:440 | with replies excluded and nothing else set, a record survives exactly when its text neither starts with "@" nor contains "Replying to" (also content.js:460-462) |
| TweetFilter.RetweetFilterExact | content.js:441 | with retweets excluded and nothing else set, a record survives exactly when its text neither contains "RT @" nor starts with "Retweeted" (also content.js:464-466) |
| TweetFilter.UnparseableDatesPass | content.js:430-437 | an unparseable tweet date, or bounds that are absent or unparseable, never drop a record (comparisons with NaN are false) |
| TweetFilter.IncludeMediaIgnored | content.js:428-444 | the `includeMedia` option has no effect on the result |
| TweetFilter.PermissiveCriteriaKeepAll | content.js:428-446 | with no dates and replies and retweets included, every record is returned in order |
| TweetFilter.JanuaryWindow | content.js:430-437 | a window from "2024-01-01" to "2024-01-31" keeps 15 January and drops 1 February and noon on 31 January |
| TweetIds.StatusIdFrom | content.js:108 | the search from position i fails exactly when no `/status/` followed by a digit occurs there or later; a hit is a non-empty digit run |
| TweetIds.StatusId | content.js:108 | `href.match(/\/status\/(\d+)/)` fails exactly when no `/status/` is followed by a digit; a hit is a non-empty digit run |
| TweetIds.StatusIdLeftmost | content.js:108 | the match taken is the digit run after the leftmost `/status/` followed by a digit |
| TweetIds.FirstStatusId | content.js:106-110 | the link loop fails exactly when no link matches; a hit is a non-empty digit run |
| TweetIds.DataTweetId | content.js:113-114 | the attribute id is empty exactly when the element's own `data-tweet-id` is empty, or it has none and no ancestor has a non-empty one |
| TweetIds.DataTweetIdSources | content.js:113-114 | the element's own `data-tweet-id` is read first, an ancestor's only when the element has none, and "" when neither exists |
| TweetIds.HashStep | content.js:312-315 | one reduce step is a signed 32-bit integer, equal to ToInt32 of `31 * a + code`, so the shift-and-subtract is multiplication by 31 modulo 2^32 |
| TweetIds.TextHash | content.js:312-315 | the hash fold stays a signed 32-bit integer |
| TweetIds.TextHashIsJavaHashCode | content.js:312-315 | `((a << 5) - a) + c` then `a & a` computes the base-31 polynomial of the character codes truncated to 32 bits (Java's `hashCode`) |
| TweetIds.GenerateTweetId | content.js:309-316 | the synthetic id is a non-empty string of decimal digits |
| TweetIds.GeneratedIdsAgreeIffClockTailsAgree | content.js:311-315 | two synthetic ids for one text are equal exactly when the clock strings end in the same six characters |
| TweetIds.TweetIdOf | content.js:97-117 | the id is never empty |
| TweetIds.StructuralIdIgnoresClock | content.js:106-116 | an id from a status link or an attribute does not depend on the clock |
| TweetIds.SyntheticIdFallback | content.js:113-116 | with no matching link and no attribute, the id is the synthetic one, a digit string |
| TweetIds.IdsAgreeAcrossClocks | content.js:97-117 | two readings of an element's id at two clocks agree exactly when the id comes from the page or the clock strings end in the same six characters (also content.js:315) |
| TweetIds.ExtractTweetId | content.js:97-117 | the early-return loop over links, then the attribute, then the synthetic id, computes `TweetIdOf` |
| Fields.CountPrefix | content.js:304 | the longest prefix of digits and commas is a prefix made only of those characters and is maximal |
| Fields.CountPrefixOf | content.js:304 | a block of digits and commas followed by another character is exactly the prefix read |
| Fields.CountRun | content.js:304 | `text.match(/[\d,]+/)` fails exactly when the text has no digit or comma; a hit is a non-empty run of them |
| Fields.CountRunAt | content.js:304 | the run found starts at the first digit or comma of the text |
| Fields.RemoveCommas | content.js:305 | `replace(/,/g, '')` leaves no comma, only digits when the run was a count run, and nothing exactly when the run was all commas |
| Fields.ParseCount | content.js:304-305 | no run gives 0; a run gives its digits read in decimal once the commas are gone; a run of commas alone gives NaN (also injected.js:108-109) |
| Fields.ExtractNumberIsParseCount | content.js:302-306 | the empty-text guard of `extractNumber` changes nothing |
| Fields.ExtractNumber | content.js:302-306 | a count is never negative, and text with no digit or comma gives 0 |
| Fields.ExtractNumberRange | content.js:302-306 | a count is never negative, and is NaN exactly when the first run holds no digit |
| Fields.ThousandsRun | content.js:304 | the run found in "1,234 replies" is "1,234" |
| Fields.ThousandsDigits | content.js:305 | "1,234" loses its comma and reads 1234 |
| Fields.ExtractNumberThousands | content.js:302-306 | "1,234 replies" reads 1234 |
| Fields.ExtractNumberAbbreviated | content.js:302-306 | "1.2K" reads 1: abbreviations are not expanded |
| Fields.ExtractNumberNoDigits | content.js:302-306 | "likes" and "" read 0 |
| Fields.ExtractNumberOnlyCommas | content.js:302-306 | ",, likes" reads NaN, not 0 |
| Fields.NormalizeUsername | content.js:174 | the username starts with '@'; it is the input when that already starts with '@', and otherwise the input with '@' in front |
| Fields.NormalizeUsernameIdempotent | content.js:174 | normalising twice is normalising once; an empty username becomes "@" (also injected.js:79) |
| Fields.ImagesOf | content.js:262-270 | only images whose `src` contains "media" and not "profile" are kept, at most one item per image; with ImagesOfAppend and ImagesOfOne, the items come in document order, one per qualifying `img` |
| Fields.ImagesOfAppend | content.js:262-270 | the images of a list in two parts are the first part's images followed by the second's: the push keeps document order (also injected.js:115-122) |
| Fields.ImagesOfOne | content.js:264-268 | one `img` yields its `{url, alt}` item when it passes the media test, and nothing otherwise |
| Fields.ImagesOfExact | content.js:262-270 | every qualifying image yields its `{url, alt}` item and every item comes from an image (membership only; order and multiplicity are ImagesOfAppend and ImagesOfOne) |
| Fields.VideoOf | content.js:275-278 | a video's URL is missing exactly when it has neither a `src` nor a `source` child; a non-empty `src` wins; the poster is kept |
| Fields.VideosOf | content.js:273-279 | one item per video, in order |
| Fields.MediaOf | content.js:254-282 | at most one image per `img`, each a tweet-media URL, in the order ImagesOfAppend gives; exactly one item per video, item i from video i; the `gifs` key as given |
| Fields.ExtractMedia | content.js:254-282 | the two push loops compute the media object of the element |
| ContentExtract.TextOf | content.js:120-136 | text from the first matching selector is trimmed and not cut; the whole-element fallback is the trimmed text, cut to exactly its first 280 characters when longer |
| ContentExtract.TextLimitOnlyOnFallback | content.js:128-132 | a matched text node is returned trimmed, whatever its length |
| ContentExtract.FirstTrimmed | content.js:154-160 | the first matching selector's trimmed text, or "" when none matches |
| ContentExtract.AuthorOf | content.js:139-189 | the name is the first trimmed match; the username is empty exactly when no selector matched, and otherwise is the trimmed match normalised to one leading '@' (kept as is when it has one); the profile image is the first image query's `src`, or "" when none matched |
| ContentExtract.TimeNodeOf | content.js:193-200 | the first present of the three selector results, in order, and none only when all three are missing |
| ContentExtract.TimestampOf | content.js:192-211 | no time node gives the current time; a non-empty `datetime` gives its ISO conversion, and throws (None) exactly when that is invalid; a node without `datetime` gives its trimmed text |
| ContentExtract.MetricOf | content.js:223-248 | the first selector's element wins, then the second, and 0 when neither matched |
| ContentExtract.MetricsOf | content.js:214-251 | each metric is 0 when neither of its selectors matches; views fall back to the `data-testid` match only when the `aria-label` one is missing |
| ContentExtract.MetricsOrder | content.js:214-251 | every count is NaN or non-negative; replies read `[data-testid="reply"]` first and views read `[aria-label*="view"]` first |
| ContentExtract.UrlOf | content.js:285-299 | a status link gives the origin plus its raw `href`; otherwise a URL is built from a username, and "" results exactly when there is neither |
| ContentExtract.UrlCarriesRecordId | content.js:291-296 | a reconstructed URL carries the record's id whenever that id does not depend on the clock, or both clock readings agree |
| ContentExtract.TweetDataOf | content.js:77-94 | a record comes back unless the timestamp throws; its id is the non-empty extracted id and its timestamp the extracted one |
| ContentExtract.TweetDataClockIndependent | content.js:77-94 | an element with a page-given id and a time node yields the same record at every clock |
| ContentExtract.ExtractTweetText | content.js:120-136 | the selector loop with early return computes `TextOf` |
| ContentExtract.ExtractAuthorInfo | content.js:139-189 | the two selector loops with `break` and the image fallback compute `AuthorOf` |
| ContentExtract.ExtractTimestamp | content.js:192-211 | the selector loop computes `TimestampOf` |
| ContentExtract.ExtractTweetUrl | content.js:285-299 | the link check, then the id and author recomputation, compute `UrlOf` |
| ContentExtract.ExtractTweetData | content.js:77-94 | the record assembly computes `TweetDataOf`, a throwing timestamp giving null |
| InjectedExtract.InjectedTextOf | injected.js:63-66 | the matched text or else the whole text, trimmed, with no length limit |
| InjectedExtract.InjectedAuthorOf | injected.js:69-81 | no `User-Name` block gives empty fields; inside one, the name is the trimmed text of the first `span` (or ""), and the username is the trimmed link text (or "") normalised to a leading '@', an '@'-prefixed one kept unchanged |
| InjectedExtract.BareAuthorBlock | injected.js:74-79 | a block whose profile link is missing or trims to nothing yields "@", and the URL built from it has an empty handle (also injected.js:140-146) |
| InjectedExtract.InjectedTimestampOf | injected.js:84-90 | the `datetime` attribute passed through, else the raw text, else the current time |
| InjectedExtract.InjectedTweetIdOf | injected.js:48-60 | the page script's id, the status-link loop then one logical-or chain over the attributes and the synthetic id, is never empty |
| InjectedExtract.InjectedMetricsOf | injected.js:93-100 | every count is NaN or non-negative, and a metric without a matching element is 0 |
| InjectedExtract.InjectedMetricOf | injected.js:103-110 | no match gives 0; the text is parsed, and the `aria-label` only when the text is empty; the count is NaN or non-negative |
| InjectedExtract.InjectedMetricPrefersText | injected.js:107 | a non-empty text is parsed even when the label holds a count |
| InjectedExtract.InjectedUrlOf | injected.js:140-146 | a URL is built exactly when there is a username and an id |
| InjectedExtract.InjectedRecordOf | injected.js:27-40 | the record's id is the page script's non-empty id; the record has no `gifs` and no profile image; its URL is empty exactly when there is no author block |
| InjectedExtract.InjectedTweetDataOf | injected.js:27-45 | a null element gives null; an element always gives its record |
| InjectedExtract.ScriptsAgreeOnId | injected.js:48-60 | the page script's logical-or chain and the content script's attribute-then-synthetic fallback give the same id for one unchanged element snapshot read at one clock (also content.js:97-117) |
| InjectedExtract.VisibleTweets | injected.js:12-24 | one record per candidate element |
| InjectedExtract.VisibleTweetsPointwise | injected.js:12-24 | record i is element i's record at clock i |
| InjectedExtract.ExtractVisibleTweets | injected.js:12-24 | the push loop computes `VisibleTweets` |
| BulkSelection.Without | injected.js:235 | `Set.delete` removes exactly that id, keeps every other member, shrinks a set holding it by one, and leaves the other ids in their order |
| BulkSelection.Add | injected.js:238 | `Set.add` appends an absent id and leaves a present one where it is (also injected.js:256) |
| BulkSelection.Toggle | injected.js:234-240 | membership of exactly the given id flips |
| BulkSelection.WithoutLast | injected.js:234-240 | deleting an id just added restores the set |
| BulkSelection.ToggleTwice | injected.js:233-242 | toggling twice restores the members and the size, and the exact order when the id was absent |
| BulkSelection.ToggleTwoNewIds | injected.js:233-242 | toggling two different unselected ids appends both, in order |
| BulkSelection.AddAll | injected.js:255-256 | adding ids keeps the old members first, in order, with no duplicates |
| BulkSelection.AddAllSnoc | injected.js:255-256 | adding one more id extends the additions so far |
| BulkSelection.AddAllMembers | injected.js:253-263 | `selectAll` only adds: the new set is the old set plus the given ids |
| BulkSelection.IdsOf | injected.js:256 | the ids of the records, in order |
| BulkSelection.SelectedRecords | injected.js:272-280 | at most one record per selected id |
| BulkSelection.SelectedRecordsExact | injected.js:272-280 | the records are those whose lookup found an element, and all ids yield one exactly when every lookup succeeds |
| BulkSelection.ExportSelectedOf | injected.js:266-285 | an empty set alerts; when no lookup succeeds nothing is exported; otherwise the found records are exported |
| BulkSelection.ExportedCount | injected.js:266-285 | an export holds between 1 and `size` records, and exactly `size` when every lookup succeeds (also injected.js:289-294) |
| BulkSelection.BulkExport.constructor | injected.js:161-162 | the set starts empty and selection mode off |
| BulkSelection.BulkExport.StartSelection | injected.js:165-169 | selection mode turns on, the set is kept, and a toolbar showing 0 is appended (also injected.js:193-204) |
| BulkSelection.BulkExport.StopSelection | injected.js:172-177 | selection mode turns off, the set is emptied, and the first toolbar is removed (also injected.js:186-190) |
| BulkSelection.BulkExport.UpdateSelectionCount | injected.js:245-250 | the first toolbar's count shows the set size; nothing else changes |
| BulkSelection.BulkExport.ToggleTweetSelection | injected.js:233-242 | the id's membership flips, the first toolbar shows the new size and the other toolbars are unchanged |
| BulkSelection.BulkExport.HandleSelectionClick | injected.js:217-230 | outside selection mode or off a tweet nothing changes; otherwise the default is prevented, the id the page script reads at the click's clock is toggled, and only the first toolbar's count changes |
| BulkSelection.BulkExport.SelectAll | injected.js:253-263 | the visible tweets' ids are added whether or not selection mode is on; the first toolbar shows the new size and the other toolbars are unchanged |
| BulkSelection.BulkExport.AddTweets | injected.js:255-261 | the `forEach` adds each record's id in turn |
| BulkSelection.BulkExport.ExportSelected | injected.js:266-285 | the loop over the set computes `ExportSelectedOf`, changing neither the set nor the mode |
| BulkSelection.ClickTwice | injected.js:217-242 | two clicks on one tweet in selection mode, each reading its own clock, restore the members and the size when the id comes from the page or the clock tails agree; otherwise two new synthetic ids grow the set by two |
| Export.MakeEnvelope | injected.js:290-294 | `tweetCount` is the number of tweets, and the tweets and date are those given (also background.js:46-50) |
| Export.ExportFilename | injected.js:300 | the name starts with "tweets_export_", ends with ".json", has the length of prefix, at most 19 stamp characters and suffix, and contains no ':' (also background.js:54) |
| Export.FilenameStamp | injected.js:300 | stamp character i is ISO character i, with ':' turned into '-' (also background.js:54) |
| Export.StandardIsoFilenameLength | background.js:54 | a 24-character ISO string gives a 38-character name |
| Export.StampOf | background.js:54 | reading the stamp back out of a 38-character name gives 19 characters |
| Export.FilenameRoundTrip | background.js:54 | for an ISO-shaped time the date and time to the second can be read back from the name |
| Export.HandleTweetExport | background.js:45-63 | the download gets the well-formed envelope and the name; the reply succeeds exactly when the download does, carrying the name and `tweets.length`, and otherwise carries the error (also background.js:28-36) |
| Export.ExportTweets | injected.js:289-306 | the download gets the well-formed envelope and the name; the notification names the count |
| Export.ProducersAgree | injected.js:289-300 | the page script and the worker hand the same download for the same inputs (also background.js:45-54) |
| Settings.Defaults | settings.js:6-19 | the defaults list the twelve keys in declaration order |
| Settings.DefaultsValid | settings.js:6-19 | the default keys are distinct |
| Settings.NumberOf | settings.js:135 | what `<` and `>` compare: an absent key is NaN, a boolean 0 or 1, an empty or blank string 0, a digit string its decimal value (also settings.js:141) |
| Settings.Validate | settings.js:133-153 | a rejection carries one of the three alerts |
| Settings.ValidateOrder | settings.js:133-153 | maxTweets is checked first, then apiDelay, then the pattern; an object is accepted exactly when each number is in range or NaN and the pattern is a string containing "{date}" |
| Settings.DefaultsAccepted | settings.js:6-19 | the defaults pass validation (also settings.js:133-153) |
| Settings.NonNumericCountsPass | settings.js:135 | missing or non-numeric counts are not caught by the range checks (also settings.js:141) |
| Settings.LiveCheck | settings.js:40-56 | the custom validity message is "" or the hint |
| Settings.LiveCheckAgrees | settings.js:40-56 | on a decimal field, a live check flags exactly what the save-time check with the same bounds flags (also settings.js:135, settings.js:141) |
| Settings.LiveChecksAgreeWithValidate | settings.js:40-56 | both numeric inputs use the validator's bounds (also settings.js:135, settings.js:141) |
| Settings.KebabId | settings.js:91 | the id is between one and two times the key's length, and starts with "-" exactly when the key starts with a capital, otherwise with the key's first character (also settings.js:72) |
| Settings.KebabIdShape | settings.js:72 | the element id has no uppercase letter and is as long as the key plus its number of capitals (also settings.js:91) |
| Settings.KebabRoundTrip | settings.js:72 | a key without '-' can be read back from its element id (also settings.js:91) |
| Settings.KebabIdAppend | settings.js:72 | the conversion distributes over concatenation, character by character (also settings.js:91) |
| Settings.KebabIdOfLower | settings.js:72 | a lower-case key is its own id (also settings.js:91) |
| Settings.KebabIdOfTwoWords | settings.js:72 | a two-word camelCase key becomes the words joined by '-' (also settings.js:91) |
| Settings.MaxTweetsInputId | settings.js:40 | "maxTweets" maps to the "max-tweets" input (also settings.js:91) |
| Settings.ApiDelayInputId | settings.js:49 | "apiDelay" maps to the "api-delay" input (also settings.js:91) |
| Settings.Spread | settings.js:62 | spreading stored properties over an object keeps it valid |
| Settings.SpreadGets | settings.js:62 | the spread keeps the base keys first, in order; a spread key takes the stored value and every other key keeps the base value |
| Settings.Merge | settings.js:62 | a key the stored object has takes its stored value, and every other key keeps the base's value |
| Settings.MergeOverrides | settings.js:62 | the merge has every base key; a stored value overrides, and a default is kept wherever nothing is stored |
| Settings.LoadedSettings | settings.js:59-67 | the loaded settings hold every default key; a storage error or nothing stored gives the defaults |
| Settings.Collected | settings.js:88-100 | only the listed keys are collected, exactly those whose element exists, each with its element's value |
| Settings.TweetExportSettings.constructor | settings.js:4-5 | the settings start as an empty object |
| Settings.TweetExportSettings.LoadSettings | settings.js:59-67 | the settings become the loaded settings |
| Settings.TweetExportSettings.CollectForm | settings.js:89-100 | the `forEach` computes `Collected` |
| Settings.TweetExportSettings.SaveSettings | settings.js:86-131 | a rejected form alerts and keeps the old settings; a validator that throws (no pattern string) keeps them and reports the failure; an accepted form is committed before the storage write, and the notifications follow the storage and message outcomes (also settings.js:133-153) |
| Settings.TweetExportSettings.ResetSettings | settings.js:155-162 | a confirmed reset restores the defaults before the storage write and shows "Settings reset to defaults" unless that write fails; an unconfirmed reset changes nothing and shows nothing |
| Js.Truncate | content.js:135 | `substring(0, n)` keeps the first n characters, or all of a shorter string |
| Js.SliceFromEnd | content.js:315 | `slice(-6)` keeps the last six characters, or all of a shorter string |
| Js.ReplaceAll | injected.js:300 | `replace(/:/g, '-')` changes every ':' and nothing else |
| Js.RemoveFirst | content.js:295 | `replace('@', '')` leaves a string without '@' unchanged, otherwise removes exactly one character, and drops a leading '@' (also injected.js:143) |
| Js.Trim | content.js:131 | `trim` never lengthens its input and leaves no whitespace at either end of its result |
| Js.TrimStart | content.js:131 | the leading whitespace, and only that, is removed |
| Js.TrimEnd | content.js:131 | the trailing whitespace, and only that, is removed |
| Js.TrimShape | content.js:131 | `trim` keeps a block of the input with no whitespace at either end and removes only whitespace around it |
| Js.TrimOfTrimmed | content.js:131 | a string with no whitespace at either end is its own trim |
| Js.TrimIdempotent | content.js:131 | trimming twice is trimming once |
| Js.DecimalString | content.js:311 | `toString()` gives a non-empty digit string that reads back as the number, with no leading zero (also content.js:315) |
| Js.ParseInt | content.js:305 | after leading whitespace and an optional sign, with no `0x` prefix, the result is NaN when no digit follows and otherwise the digit run read in base 10, negated after "-" (also injected.js:109, settings.js:41 and settings.js:50) |
| Js.ParseIntStopsAtNonDigit | content.js:305 | `parseInt("12abc")` is 12: reading stops at the first non-digit |
| Js.ParseIntSignedAfterSpace | settings.js:41 | `parseInt(" -5")` is -5: leading whitespace is skipped and "-" negates |
| Js.ParseUnsigned | content.js:305 | the result is never negative, and is NaN exactly when the string has no leading digit of its base (hexadecimal after `0x`) (also settings.js:41) |
| Js.ParseIntOfDigits | content.js:305 | `parseInt` of a digit string reads its decimal value; of "" it gives NaN (also settings.js:41) |
| Js.StringToNumber | settings.js:135 | the conversion `<` and `>` apply: blank is 0, a trimmed digit string or "-" and digits is its signed value, and a finite result comes from text ending in a digit (also settings.js:141) |
| Js.StringToNumberOfDigits | settings.js:135 | the relational conversion of a non-empty digit string is its decimal value (also settings.js:141) |
| Js.Less | content.js:435-436 | the date comparison: any comparison with NaN is false, and a number is never less than itself |
| Js.ToInt32 | content.js:313-314 | the 32-bit truncation is in range, congruent modulo 2^32, and the identity on 32-bit values |
| Js.ToInt32Congruent | content.js:313-314 | congruent inputs truncate to the same value |

## Left out

- Selector matching (`querySelector`, `querySelectorAll`, `closest`): each element carries its resolved query results, and element identity is a number.
- DOM side effects: export buttons, CSS classes on tweets, the toolbar markup, `alert`/`confirm` dialogs, the `<a>` click, and the notifications of the content and page scripts. The toolbar is kept only as its shown count, and `updateUI` and `updateLastSaved` are not modelled. The export button `addExportButton` appends to a processed tweet (content.js:325, 365) adds to its `textContent`. A synthetic id read after processing is therefore hashed from different text, and elements are modelled as unchanged snapshots. The settings page's notifications are modelled as messages: `SaveSettings` returns its alert or notifications as a `SaveOutcome`, and `ResetSettings` returns the messages it shows; their styling and timing are left out.
- `JSON.stringify`, `encodeURIComponent` and the data URL: the envelope is handed to the download as a value.
- `chrome.downloads`, `chrome.storage` and `chrome.runtime` messaging: failures are boolean or error inputs. The message transport of the listeners (content.js:401-421, background.js:28-36) is reduced to the handlers' results.
- A failed storage write in `resetSettings` rejects the handler's promise, which nothing catches, and skips `updateUI` (settings.js:158-160). The model records only that the settings are already the defaults and that no notification is shown.
- Date parsing and formatting (`new Date`, `toISOString`, `Date.now`): these are clock and parse inputs. An invalid `datetime` in content.js is an input whose ISO conversion is None.
- The 1000 ms delay of the cold-start scan: the timer callback is a separate method, and only the order of events (callbacks before the timer, the timer, callbacks after it) is modelled, not their timing.
- `ContentScript.TweetExportContent.ProcessTweet`: the `try`/`catch` around extraction is modelled only for the one exception a well-formed element can raise, the invalid-date `toISOString`.
- Numbers are integers or NaN: there are no fractions, infinities or `-0`, and `parseInt` has no precision loss on long digit runs.
- `Js.StringToNumber`: only the decimal, signed-decimal and `0x` forms are read; exponents, fractions, `Infinity`, and the binary and octal prefixes read as NaN.
- `Settings.Validate`: through `Js.StringToNumber`, a `maxTweets` or `apiDelay` such as "0.5" or "1e5" reads as NaN and passes, where the source compares the number and rejects it (settings.js:135, 141).
- `Js.ToAsciiLower`, `Js.ToAsciiUpper`: `toLowerCase` is modelled on ASCII letters only, which covers the setting keys.
- Strings are sequences of UTF-16-agnostic characters: there is no surrogate handling in `split('')` or `charCodeAt`.
- `includeMedia` of the fetch options is read by nothing in the source, and the model proves it has no effect.
- popup.js, build.js and generate-icons.js are not part of this model.
