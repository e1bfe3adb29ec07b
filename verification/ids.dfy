/**
 * Tweet identifiers, computed the same way by both scripts: the digits after
 * `/status/` in a status link, else the `data-tweet-id` attribute of the element
 * or an ancestor, else a synthetic id made of a hash of the element's text and
 * the last six digits of the millisecond clock.
 */
module TweetIds {
  import opened Wrappers
  import opened Js
  import opened Dom

  const STATUS_PATH: string := "/status/"

  // ---------------------------------------------------------------------------
  // The regular expression /\/status\/(\d+)/

  /** `/status/` starts at position `i` of `s` and is followed by at least one digit. */
  predicate StatusAt(s: string, i: int)
  {
    0 <= i && i + 9 <= |s| && s[i..i + 8] == STATUS_PATH && IsDigit(s[i + 8])
  }

  function StatusIdFrom(s: string, i: nat): (r: Option<string>)
    requires i <= |s|
    ensures r.None? <==> forall j :: i <= j < |s| ==> !StatusAt(s, j)
    ensures r.Some? ==> r.value != [] && AllDigits(r.value)
    decreases |s| - i
  {
    if i == |s| then None
    else if StatusAt(s, i) then
      Some(LeadingDigits(s[i + 8..]))
    else StatusIdFrom(s, i + 1)
  }

  /** `href.match(/\/status\/(\d+)/)`, yielding the captured group when there is a match. */
  function StatusId(href: string): (r: Option<string>)
    ensures r.None? <==> forall j :: 0 <= j < |href| ==> !StatusAt(href, j)
    ensures r.Some? ==> r.value != [] && AllDigits(r.value)
  {
    StatusIdFrom(href, 0)
  }

  lemma {:induction false} StatusIdFromAt(href: string, i: nat, j: nat)
    requires i <= j && StatusAt(href, j)
    requires forall k :: i <= k < j ==> !StatusAt(href, k)
    ensures StatusIdFrom(href, i) == Some(LeadingDigits(href[j + 8..]))
    decreases j - i
  {
    if i < j {
      StatusIdFromAt(href, i + 1, j);
    }
  }

  /** The match is the leftmost `/status/` that a digit follows, and the captured group is the
      whole run of digits after it. */
  lemma StatusIdLeftmost(href: string, j: nat)
    requires StatusAt(href, j)
    requires forall k :: 0 <= k < j ==> !StatusAt(href, k)
    ensures StatusId(href) == Some(LeadingDigits(href[j + 8..]))
  {
    StatusIdFromAt(href, 0, j);
  }

  /** The first link, in document order, whose `href` matches. */
  function FirstStatusId(links: seq<Link>): (r: Option<string>)
    ensures r.None? <==> forall i :: 0 <= i < |links| ==> StatusId(links[i].href).None?
    ensures r.Some? ==> r.value != [] && AllDigits(r.value)
  {
    if links == [] then None
    else if StatusId(links[0].href).Some? then StatusId(links[0].href)
    else FirstStatusId(links[1..])
  }

  // ---------------------------------------------------------------------------
  // The data-tweet-id attribute

  /** `el.getAttribute('data-tweet-id') || el.closest('[data-tweet-id]')?.getAttribute('data-tweet-id')`,
      with a missing value read as "". `closest` starts at the element itself, so an element that
      carries the attribute (even empty) is its own closest match. */
  function DataTweetId(e: Element): (r: string)
    ensures r == "" <==>
      ((e.tweetIdAttr.Some? && e.tweetIdAttr.value == "")
       || (e.tweetIdAttr.None? && (e.ancestorTweetIdAttr.None? || e.ancestorTweetIdAttr.value == "")))
  {
    var own := e.tweetIdAttr;
    var closest := if own.Some? then own else e.ancestorTweetIdAttr;
    if own.Some? && own.value != "" then own.value
    else if closest.Some? then closest.value
    else ""
  }

  /** An ancestor's attribute is consulted only when the element has no attribute of its own. */
  lemma DataTweetIdSources(e: Element)
    ensures e.tweetIdAttr.Some? ==> DataTweetId(e) == e.tweetIdAttr.value
    ensures e.tweetIdAttr.None? && e.ancestorTweetIdAttr.Some? ==> DataTweetId(e) == e.ancestorTweetIdAttr.value
    ensures e.tweetIdAttr.None? && e.ancestorTweetIdAttr.None? ==> DataTweetId(e) == ""
  {
  }

  // ---------------------------------------------------------------------------
  // The synthetic id

  /** One step of `a = ((a << 5) - a) + c; return a & a;`: the shift truncates `a * 32` to a
      signed 32-bit integer, and `a & a` truncates the sum. */
  function HashStep(a: int, c: char): (r: int)
    ensures IsInt32(r)
    ensures r == ToInt32(31 * a + c as int)
  {
    ToInt32Congruent(ToInt32(a * 32) - a + c as int, 31 * a + c as int);
    ToInt32(ToInt32(a * 32) - a + c as int)
  }

  /** `text.split('').reduce(HashStep, 0)` */
  function TextHash(text: string): (h: int)
    ensures IsInt32(h)
  {
    if text == [] then 0 else HashStep(TextHash(text[..|text| - 1]), text[|text| - 1])
  }

  /** The polynomial sum of the character codes with base 31, without truncation. */
  function Polynomial(text: string): int
  {
    if text == [] then 0 else 31 * Polynomial(text[..|text| - 1]) + text[|text| - 1] as int
  }

  lemma CombineMultiples(u: int, v: int)
    requires u % TWO_32 == 0 && v % TWO_32 == 0
    ensures (u + 31 * v) % TWO_32 == 0
  {
    var k1, k2 := u / TWO_32, v / TWO_32;
    assert u == k1 * TWO_32 && v == k2 * TWO_32;
    assert u + 31 * v == (k1 + 31 * k2) * TWO_32;
    ModAddMultiple(0, k1 + 31 * k2);
  }

  /** The shift-and-subtract fold computes Java's `String.hashCode`: the base-31 polynomial of
      the character codes, truncated to a signed 32-bit integer. */
  lemma {:induction false} TextHashIsJavaHashCode(text: string)
    ensures TextHash(text) == ToInt32(Polynomial(text))
  {
    if text != [] {
      var p := text[..|text| - 1];
      var c := text[|text| - 1] as int;
      TextHashIsJavaHashCode(p);
      var a := TextHash(p);
      var x := ToInt32(a * 32) - a + c;
      var y := 31 * Polynomial(p) + c;
      CombineMultiples(ToInt32(a * 32) - a * 32, a - Polynomial(p));
      assert x - y == (ToInt32(a * 32) - a * 32) + 31 * (a - Polynomial(p));
      ToInt32Congruent(x, y);
    }
  }

  function Abs(x: int): nat
  {
    if x < 0 then -x else x
  }

  /** `Math.abs(hash).toString() + Date.now().toString().slice(-6)` */
  function GenerateTweetId(text: string, nowMs: nat): (id: string)
    ensures id != [] && AllDigits(id)
  {
    var h := DecimalString(Abs(TextHash(text)));
    var t := DecimalString(nowMs);
    var tail := SliceFromEnd(t, 6);
    h + tail
  }

  /** Two synthetic ids for the same text are equal exactly when the clock strings end in the same
      six characters: the id is not stable across scans that read different clocks. */
  lemma GeneratedIdsAgreeIffClockTailsAgree(text: string, t1: nat, t2: nat)
    ensures GenerateTweetId(text, t1) == GenerateTweetId(text, t2)
        <==> SliceFromEnd(DecimalString(t1), 6) == SliceFromEnd(DecimalString(t2), 6)
  {
    var h := DecimalString(Abs(TextHash(text)));
    var a, b := SliceFromEnd(DecimalString(t1), 6), SliceFromEnd(DecimalString(t2), 6);
    if h + a == h + b {
      assert (h + a)[|h|..] == a && (h + b)[|h|..] == b;
    }
  }

  // ---------------------------------------------------------------------------
  // The whole fallback chain

  /** The id `extractTweetId` returns. */
  function TweetIdOf(e: Element, nowMs: nat): (id: string)
    ensures id != []
  {
    match FirstStatusId(e.statusLinks)
    case Some(d) => d
    case None => if DataTweetId(e) != "" then DataTweetId(e) else GenerateTweetId(e.textContent, nowMs)
  }

  /** An id taken from the page (a status link or an attribute) does not depend on the clock;
      only the synthetic fallback does. */
  lemma StructuralIdIgnoresClock(e: Element, t1: nat, t2: nat)
    requires FirstStatusId(e.statusLinks).Some? || DataTweetId(e) != ""
    ensures TweetIdOf(e, t1) == TweetIdOf(e, t2)
  {
  }

  /** Two readings of one element's id agree exactly when the id comes from the page or the two
      clock strings end in the same six characters. */
  lemma IdsAgreeAcrossClocks(e: Element, t1: nat, t2: nat)
    ensures TweetIdOf(e, t1) == TweetIdOf(e, t2) <==>
      FirstStatusId(e.statusLinks).Some? || DataTweetId(e) != ""
      || SliceFromEnd(DecimalString(t1), 6) == SliceFromEnd(DecimalString(t2), 6)
  {
    if FirstStatusId(e.statusLinks).None? && DataTweetId(e) == "" {
      GeneratedIdsAgreeIffClockTailsAgree(e.textContent, t1, t2);
    }
  }

  /** An element with no matching status link and no attribute still receives an id: the
      synthetic one, a string of decimal digits. */
  lemma SyntheticIdFallback(e: Element, nowMs: nat)
    requires forall i :: 0 <= i < |e.statusLinks| ==> StatusId(e.statusLinks[i].href).None?
    requires DataTweetId(e) == ""
    ensures TweetIdOf(e, nowMs) == GenerateTweetId(e.textContent, nowMs)
    ensures TweetIdOf(e, nowMs) != [] && AllDigits(TweetIdOf(e, nowMs))
  {
  }

  /** `extractTweetId`: the loop over the status links returns on the first match, then the
      attribute, then the synthetic id. */
  method ExtractTweetId(e: Element, nowMs: nat) returns (id: string)
    ensures id == TweetIdOf(e, nowMs)
  {
    var links := e.statusLinks;
    var i := 0;
    assert links[i..] == links;
    while i < |links|
      invariant 0 <= i <= |links|
      invariant FirstStatusId(links[i..]) == FirstStatusId(links)
    {
      var m := StatusId(links[i].href);
      if m.Some? {
        return m.value;
      }
      assert links[i..][1..] == links[i + 1..];
      i := i + 1;
    }
    var attr := DataTweetId(e);
    if attr != "" {
      return attr;
    }
    id := GenerateTweetId(e.textContent, nowMs);
  }
}
