/** The record both scripts extract from a tweet element. */
module Records {
  import opened Wrappers
  import opened Js

  /** `profileImage` is None for the injected-script record, which has no such key. */
  datatype Author = Author(name: string, username: string, profileImage: Option<string>)

  /** Engagement counts; NaN arises when a matched run holds only commas. */
  datatype Metrics = Metrics(replies: JsNumber, retweets: JsNumber, likes: JsNumber, views: JsNumber)

  datatype ImageItem = ImageItem(url: string, alt: string)

  /** `url` is None when the value is `undefined` (no `src` and no `source` child). */
  datatype VideoItem = VideoItem(url: Option<string>, poster: string)

  /** `withGifs` records whether the object has the (always empty) `gifs` list of the content script. */
  datatype Media = Media(images: seq<ImageItem>, videos: seq<VideoItem>, withGifs: bool)

  datatype TweetRecord = TweetRecord(
    id: string,
    text: string,
    author: Author,
    timestamp: string,
    metrics: Metrics,
    media: Media,
    url: string
  )
}
