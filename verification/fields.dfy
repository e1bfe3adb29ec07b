/**
 * Field logic that content.js and injected.js share: reading a count out of a
 * metric label, the `@` prefix on usernames, and collecting media items.
 */
module Fields {
  import opened Wrappers
  import opened Js
  import opened Dom
  import opened Records

  // ---------------------------------------------------------------------------
  // Counts: text.match(/[\d,]+/) then parseInt(match[0].replace(/,/g, ''))

  /** The regular-expression class `[\d,]`. */
  predicate IsCountChar(c: char)
  {
    IsDigit(c) || c == ','
  }

  predicate AllCountChars(s: string)
  {
    forall i :: 0 <= i < |s| ==> IsCountChar(s[i])
  }

  /** The longest prefix of `s` made of digits and commas. */
  function CountPrefix(s: string): (r: string)
    ensures StartsWith(s, r) && AllCountChars(r)
    ensures |r| < |s| ==> !IsCountChar(s[|r|])
  {
    if s != [] && IsCountChar(s[0]) then [s[0]] + CountPrefix(s[1..]) else []
  }

  /** A block of digits and commas followed by anything else is the prefix read. */
  lemma {:induction false} CountPrefixOf(run: string, rest: string)
    requires AllCountChars(run)
    requires rest != [] ==> !IsCountChar(rest[0])
    ensures CountPrefix(run + rest) == run
  {
    if run != [] {
      assert (run + rest)[1..] == run[1..] + rest;
      CountPrefixOf(run[1..], rest);
    }
  }

  /** `text.match(/[\d,]+/)`: the leftmost maximal run of digits and commas, if any. */
  function CountRun(text: string): (r: Option<string>)
    ensures r.None? <==> forall i :: 0 <= i < |text| ==> !IsCountChar(text[i])
    ensures r.Some? ==> r.value != [] && AllCountChars(r.value)
  {
    if text == [] then None
    else if IsCountChar(text[0]) then Some(CountPrefix(text))
    else CountRun(text[1..])
  }

  /** The run found is the one that starts at the first digit or comma of the text. */
  lemma {:induction false} CountRunAt(text: string, j: nat)
    requires j < |text| && IsCountChar(text[j])
    requires forall k :: 0 <= k < j ==> !IsCountChar(text[k])
    ensures CountRun(text) == Some(CountPrefix(text[j..]))
  {
    if j > 0 {
      assert text[1..][j - 1..] == text[j..];
      CountRunAt(text[1..], j - 1);
    }
  }

  /** `s.replace(/,/g, '')` */
  function RemoveCommas(s: string): (r: string)
    ensures ',' !in r && |r| <= |s|
    ensures AllCountChars(s) ==> AllDigits(r)
    ensures r == [] <==> forall i :: 0 <= i < |s| ==> s[i] == ','
  {
    if s == [] then []
    else if s[0] == ',' then RemoveCommas(s[1..])
    else [s[0]] + RemoveCommas(s[1..])
  }

  /** The metric parse both scripts perform: no run gives 0, a run gives its digits read in
      decimal once the commas are gone, and a run of commas alone gives NaN. */
  function ParseCount(text: string): (r: JsNumber)
    ensures CountRun(text).None? ==> r == Finite(0)
    ensures CountRun(text).Some? ==>
      var digits := RemoveCommas(CountRun(text).value);
      r == if digits == [] then NaN else Finite(DigitsValue(digits))
  {
    match CountRun(text)
    case None => Finite(0)
    case Some(run) =>
      var digits := RemoveCommas(run);
      ParseIntOfDigits(digits);
      ParseInt(digits)
  }

  /** content.js `extractNumber`: `if (!text) return 0;` followed by the parse. */
  function ExtractNumber(text: string): (r: JsNumber)
    ensures r.Finite? ==> r.value >= 0
    ensures CountRun(text).None? ==> r == Finite(0)
  {
    if text == "" then Finite(0) else ParseCount(text)
  }

  /** The empty-text guard of `extractNumber` changes nothing: the parse alone already gives 0. */
  lemma ExtractNumberIsParseCount(text: string)
    ensures ExtractNumber(text) == ParseCount(text)
  {
  }

  /** A count is never negative, and is NaN exactly when the first run holds no digit. */
  lemma ExtractNumberRange(text: string)
    ensures ExtractNumber(text).Finite? ==> ExtractNumber(text).value >= 0
    ensures ExtractNumber(text).NaN? <==>
      CountRun(text).Some? && forall i :: 0 <= i < |CountRun(text).value| ==> CountRun(text).value[i] == ','
  {
  }

  lemma ThousandsRun()
    ensures CountRun("1,234 replies") == Some("1,234")
  {
    CountPrefixOf("1,234", " replies");
    assert "1,234" + " replies" == "1,234 replies";
  }

  lemma ThousandsDigits()
    ensures RemoveCommas("1,234") == "1234"
    ensures DigitsValue("1234") == 1234
  {
    assert "1,234"[1..] == ",234" && ",234"[1..] == "234";
    assert "234"[1..] == "34" && "34"[1..] == "4" && "4"[1..] == "";
    assert DigitsValue("1") == 1 by { assert "1"[..0] == ""; }
    assert DigitsValue("12") == 12 by { assert "12"[..1] == "1"; }
    assert DigitsValue("123") == 123 by { assert "123"[..2] == "12"; }
    assert "1234"[..3] == "123";
  }

  /** Thousands separators are dropped. */
  lemma ExtractNumberThousands()
    ensures ExtractNumber("1,234 replies") == Finite(1234)
  {
    ThousandsRun();
    ThousandsDigits();
  }

  /** An abbreviated count is not expanded: "1.2K" reads as 1. */
  lemma ExtractNumberAbbreviated()
    ensures ExtractNumber("1.2K") == Finite(1)
  {
    assert CountPrefix("1.2K") == "1" by {
      CountPrefixOf("1", ".2K");
      assert "1" + ".2K" == "1.2K";
    }
    assert RemoveCommas("1") == "1" by {
      assert "1"[1..] == "";
    }
    assert DigitsValue("1") == 1 by {
      assert "1"[..0] == "";
    }
  }

  /** A label without digits or commas reads 0, and so does an empty one. */
  lemma ExtractNumberNoDigits()
    ensures ExtractNumber("likes") == Finite(0)
    ensures ExtractNumber("") == Finite(0)
  {
    assert CountRun("likes") == None by {
      assert forall i :: 0 <= i < |"likes"| ==> !IsCountChar("likes"[i]);
    }
  }

  /** A run of bare commas reads NaN. */
  lemma ExtractNumberOnlyCommas()
    ensures ExtractNumber(",, likes") == NaN
  {
    assert CountPrefix(",, likes") == ",," by {
      CountPrefixOf(",,", " likes");
      assert ",," + " likes" == ",, likes";
    }
    assert RemoveCommas(",,") == [] by {
      assert ",,"[1..] == ",";
    }
  }

  // ---------------------------------------------------------------------------
  // Usernames

  /** `username.startsWith('@') ? username : `@${username}`` */
  function NormalizeUsername(u: string): (r: string)
    ensures |r| > 0 && r[0] == '@'
    ensures r == u || r == "@" + u
    ensures r == u <==> StartsWith(u, "@")
  {
    if StartsWith(u, "@") then u else "@" + u
  }

  /** Normalising twice is normalising once; an empty username becomes "@". */
  lemma NormalizeUsernameIdempotent(u: string)
    ensures NormalizeUsername(NormalizeUsername(u)) == NormalizeUsername(u)
    ensures NormalizeUsername("") == "@"
  {
  }

  // ---------------------------------------------------------------------------
  // Media

  /** `img.src.includes('media') && !img.src.includes('profile')` */
  predicate IsTweetMedia(src: string)
  {
    Includes(src, "media") && !Includes(src, "profile")
  }

  /** The images kept from `img[src*="pbs.twimg.com"]`, in document order. */
  function ImagesOf(imgs: seq<Img>): (r: seq<ImageItem>)
    ensures |r| <= |imgs|
    ensures forall i :: 0 <= i < |r| ==> IsTweetMedia(r[i].url)
  {
    if imgs == [] then []
    else
      var p := imgs[..|imgs| - 1];
      var img := imgs[|imgs| - 1];
      assert imgs == p + [img];
      var r := ImagesOf(p);
      if IsTweetMedia(img.src) then r + [ImageItem(img.src, img.alt)] else r
  }

  /** The images of a list in two parts are the images of the first part followed by those of
      the second: the `forEach` pushes in document order. */
  lemma {:induction false} ImagesOfAppend(a: seq<Img>, b: seq<Img>)
    ensures ImagesOf(a + b) == ImagesOf(a) + ImagesOf(b)
    decreases |b|
  {
    if b == [] {
      assert a + b == a;
    } else {
      var p := b[..|b| - 1];
      var x := b[|b| - 1];
      assert a + b == (a + p) + [x];
      assert (a + b)[..|a + b| - 1] == a + p;
      ImagesOfAppend(a, p);
    }
  }

  /** One `img` gives one item when it passes the media test, and none otherwise. */
  lemma ImagesOfOne(img: Img)
    ensures ImagesOf([img]) == if IsTweetMedia(img.src) then [ImageItem(img.src, img.alt)] else []
  {
    assert [img][..0] == [];
  }

  /** The images kept are exactly the media-CDN images that are not profile pictures: each one comes
      from an image of the list, and every such image is kept. */
  lemma {:induction false} ImagesOfExact(imgs: seq<Img>)
    ensures forall img :: img in imgs && IsTweetMedia(img.src) ==> ImageItem(img.src, img.alt) in ImagesOf(imgs)
    ensures forall item :: item in ImagesOf(imgs) ==> Img(item.url, item.alt) in imgs
  {
    if imgs != [] {
      var p := imgs[..|imgs| - 1];
      var img := imgs[|imgs| - 1];
      assert imgs == p + [img];
      ImagesOfExact(p);
    }
  }

  /** `{ url: video.src || video.querySelector('source')?.src, poster: video.poster }` */
  function VideoOf(v: VideoNode): (r: VideoItem)
    ensures r.url.None? <==> v.src == "" && v.sourceSrc.None?
    ensures v.src != "" ==> r.url == Some(v.src)
    ensures r.poster == v.poster
  {
    VideoItem(if v.src != "" then Some(v.src) else v.sourceSrc, v.poster)
  }

  function VideosOf(vs: seq<VideoNode>): (r: seq<VideoItem>)
    ensures |r| == |vs|
    ensures forall i :: 0 <= i < |vs| ==> r[i] == VideoOf(vs[i])
  {
    if vs == [] then [] else VideosOf(vs[..|vs| - 1]) + [VideoOf(vs[|vs| - 1])]
  }

  /** The media object: the kept images, one item per video, and whether a `gifs` key is present. */
  function MediaOf(e: Element, withGifs: bool): (r: Media)
    ensures |r.images| <= |e.mediaImages|
    ensures forall i :: 0 <= i < |r.images| ==> IsTweetMedia(r.images[i].url)
    ensures |r.videos| == |e.videos|
    ensures forall i :: 0 <= i < |e.videos| ==> r.videos[i] == VideoOf(e.videos[i])
    ensures r.withGifs == withGifs
  {
    Media(ImagesOf(e.mediaImages), VideosOf(e.videos), withGifs)
  }

  /** `extractMedia`: two `forEach` loops pushing into the `images` and `videos` arrays. */
  method ExtractMedia(e: Element, withGifs: bool) returns (m: Media)
    ensures m == MediaOf(e, withGifs)
  {
    var images: seq<ImageItem> := [];
    var i := 0;
    while i < |e.mediaImages|
      invariant 0 <= i <= |e.mediaImages|
      invariant images == ImagesOf(e.mediaImages[..i])
    {
      var img := e.mediaImages[i];
      assert e.mediaImages[..i + 1][..i] == e.mediaImages[..i];
      if IsTweetMedia(img.src) {
        images := images + [ImageItem(img.src, img.alt)];
      }
      i := i + 1;
    }
    assert e.mediaImages[..i] == e.mediaImages;
    var videos: seq<VideoItem> := [];
    var j := 0;
    while j < |e.videos|
      invariant 0 <= j <= |e.videos|
      invariant videos == VideosOf(e.videos[..j])
    {
      assert e.videos[..j + 1][..j] == e.videos[..j];
      videos := videos + [VideoOf(e.videos[j])];
      j := j + 1;
    }
    assert e.videos[..j] == e.videos;
    m := Media(images, videos, withGifs);
  }
}
