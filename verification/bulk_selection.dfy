/**
 * The page script's bulk-selection mode (`window.TweetExport.bulkExport` in
 * injected.js): the `isSelecting` flag, the `selectedTweets` set of ids, and the
 * selection toolbar whose `.count` shows the set's size.
 */
module BulkSelection {
  import opened Wrappers
  import opened Js
  import opened Seqs
  import opened Dom
  import opened Records
  import opened TweetIds
  import opened InjectedExtract
  import opened Export

  // ---------------------------------------------------------------------------
  // A JavaScript `Set` of ids: iteration follows insertion order, `add` of a new id appends it,
  // `add` of a present id changes nothing, `delete` removes it where it stands.

  /** `set.delete(x)` */
  function Without(s: seq<string>, x: string): (r: seq<string>)
    ensures x !in r
    ensures forall y :: y != x ==> (y in r <==> y in s)
    ensures x !in s ==> r == s
    ensures Distinct(s) ==> Distinct(r)
    ensures Distinct(s) && x in s ==> |r| == |s| - 1
    ensures IsSubsequence(r, s)
  {
    if s == [] then []
    else if s[0] == x then
      assert Distinct(s) ==> x !in s[1..];
      Without(s[1..], x)
    else
      var rest := Without(s[1..], x);
      assert Distinct(s) ==> s[0] !in s[1..];
      [s[0]] + rest
  }

  /** `set.add(x)` */
  function Add(s: seq<string>, x: string): (r: seq<string>)
    ensures Distinct(s) ==> Distinct(r)
    ensures x in s ==> r == s
    ensures x !in s ==> r == s + [x]
  {
    if x in s then s else s + [x]
  }

  /** The membership flip of `toggleTweetSelection`. */
  function Toggle(s: seq<string>, id: string): (r: seq<string>)
    requires Distinct(s)
    ensures Distinct(r)
    ensures id in r <==> id !in s
    ensures forall y :: y != id ==> (y in r <==> y in s)
  {
    if id in s then Without(s, id) else Add(s, id)
  }

  lemma {:induction false} WithoutLast(s: seq<string>, x: string)
    requires x !in s
    ensures Without(s + [x], x) == s
  {
    if s != [] {
      assert (s + [x])[1..] == s[1..] + [x];
      WithoutLast(s[1..], x);
    }
  }

  /** Toggling twice restores the set: the same members and the same size. An id that was absent
      leaves no trace; an id that was present comes back at the end of the iteration order. */
  lemma ToggleTwice(s: seq<string>, id: string)
    requires Distinct(s)
    ensures forall y :: y in Toggle(Toggle(s, id), id) <==> y in s
    ensures |Toggle(Toggle(s, id), id)| == |s|
    ensures id !in s ==> Toggle(Toggle(s, id), id) == s
    ensures id in s ==> Toggle(Toggle(s, id), id) == Without(s, id) + [id]
  {
    if id !in s {
      WithoutLast(s, id);
    }
  }

  /** The ids of `tweets.forEach(tweet => this.selectedTweets.add(tweet.id))`, added in order. */
  function AddAll(s: seq<string>, ids: seq<string>): (r: seq<string>)
    requires Distinct(s)
    ensures Distinct(r)
    ensures |s| <= |r| && r[..|s|] == s
  {
    if ids == [] then s
    else
      var p := AddAll(s, ids[..|ids| - 1]);
      Add(p, ids[|ids| - 1])
  }

  lemma AddAllSnoc(s: seq<string>, ids: seq<string>, i: nat)
    requires Distinct(s) && i < |ids|
    ensures AddAll(s, ids[..i + 1]) == Add(AddAll(s, ids[..i]), ids[i])
  {
    assert ids[..i + 1][..i] == ids[..i];
  }

  /** `selectAll` only adds: afterwards the set holds exactly the old ids and the new ones. */
  lemma {:induction false} AddAllMembers(s: seq<string>, ids: seq<string>)
    requires Distinct(s)
    ensures forall y :: y in AddAll(s, ids) <==> y in s || y in ids
  {
    if ids != [] {
      var n := |ids| - 1;
      AddAllMembers(s, ids[..n]);
      assert ids == ids[..n] + [ids[n]];
    }
  }

  /** The `id` of each record, in order. */
  function IdsOf(tweets: seq<TweetRecord>): (r: seq<string>)
    ensures |r| == |tweets|
    ensures forall i :: 0 <= i < |tweets| ==> r[i] == tweets[i].id
  {
    if tweets == [] then [] else IdsOf(tweets[..|tweets| - 1]) + [tweets[|tweets| - 1].id]
  }

  // ---------------------------------------------------------------------------
  // Exporting the selection

  /** `extractTweetData(document.querySelector('[data-tweet-id="<id>"]'))` for the k-th selected
      id; `lookup` stands for the query, which reads the clock `clocks(k)`. */
  function SelectedRecord(lookup: string -> Option<Element>, clocks: nat -> Clock): (string, nat) -> Option<TweetRecord>
  {
    (id: string, k: nat) => InjectedTweetDataOf(lookup(id), clocks(k))
  }

  /** The `tweets` array `exportSelected` fills. */
  function SelectedRecords(ids: seq<string>, lookup: string -> Option<Element>, clocks: nat -> Clock): (r: seq<TweetRecord>)
    ensures |r| <= |ids|
  {
    FilterMapWithIndex(ids, SelectedRecord(lookup, clocks))
  }

  /** A record is exported exactly when it is the record of the element some selected id looks
      up; every selected id whose lookup finds an element contributes one. */
  lemma SelectedRecordsExact(ids: seq<string>, lookup: string -> Option<Element>, clocks: nat -> Clock)
    ensures forall t :: t in SelectedRecords(ids, lookup, clocks) <==>
      exists k :: 0 <= k < |ids| && SelectedRecord(lookup, clocks)(ids[k], k) == Some(t)
    ensures forall k :: 0 <= k < |ids| ==> (SelectedRecord(lookup, clocks)(ids[k], k).Some? <==> lookup(ids[k]).Some?)
    ensures |SelectedRecords(ids, lookup, clocks)| == |ids| <==> forall k :: 0 <= k < |ids| ==> lookup(ids[k]).Some?
  {
    FilterMapWithIndexMembers(ids, SelectedRecord(lookup, clocks));
    FilterMapWithIndexAll(ids, SelectedRecord(lookup, clocks));
    forall k | 0 <= k < |ids|
      ensures SelectedRecord(lookup, clocks)(ids[k], k).Some? <==> lookup(ids[k]).Some?
    {
      assert SelectedRecord(lookup, clocks)(ids[k], k) == InjectedTweetDataOf(lookup(ids[k]), clocks(k));
    }
  }

  /** The outcome of `exportSelected`. `NothingSelected` is the "No tweets selected" alert;
      `NothingFound` is a non-empty selection none of whose ids led to a record, which exports
      nothing and says nothing. */
  datatype SelectionExport = NothingSelected | NothingFound | Exported(page: PageExport)

  const NO_SELECTION_ALERT: string := "No tweets selected"

  function ExportSelectedOf(ids: seq<string>, lookup: string -> Option<Element>, clocks: nat -> Clock, isoDate: string, isoName: string): (r: SelectionExport)
    ensures r.NothingSelected? <==> ids == []
    ensures r.NothingFound? <==> ids != [] && SelectedRecords(ids, lookup, clocks) == []
    ensures r.Exported? ==> r.page == ExportTweets(SelectedRecords(ids, lookup, clocks), isoDate, isoName)
  {
    if ids == [] then NothingSelected
    else
      var tweets := SelectedRecords(ids, lookup, clocks);
      if tweets == [] then NothingFound else Exported(ExportTweets(tweets, isoDate, isoName))
  }

  /** An export carries at most one record per selected id, and exactly one when every lookup
      finds an element. */
  lemma ExportedCount(ids: seq<string>, lookup: string -> Option<Element>, clocks: nat -> Clock, isoDate: string, isoName: string)
    requires ExportSelectedOf(ids, lookup, clocks, isoDate, isoName).Exported?
    ensures var env := ExportSelectedOf(ids, lookup, clocks, isoDate, isoName).page.download.envelope;
      0 < env.tweetCount <= |ids| && env.tweetCount == |env.tweets|
      && (env.tweetCount == |ids| <==> forall k :: 0 <= k < |ids| ==> lookup(ids[k]).Some?)
  {
    SelectedRecordsExact(ids, lookup, clocks);
  }

  // ---------------------------------------------------------------------------
  // The state machine

  class BulkExport {
    /** `selectedTweets`, in iteration order. */
    var selected: seq<string>
    var isSelecting: bool
    /** The `.count` shown by each selection toolbar in the document, in document order: every
        `startSelection` appends one showing 0, and `stopSelection` removes the first. */
    var toolbars: seq<nat>

    ghost predicate Valid()
      reads this
    {
      Distinct(selected)
    }

    /** The count the page shows (the first toolbar's) agrees with the set. */
    ghost predicate CountShown()
      reads this
    {
      toolbars != [] ==> toolbars[0] == |selected|
    }

    constructor()
      ensures Valid() && selected == [] && !isSelecting && toolbars == []
    {
      selected := [];
      isSelecting := false;
      toolbars := [];
    }

    /** `startSelection`: the set is kept as it is, and a new toolbar showing 0 is added. */
    method StartSelection()
      requires Valid()
      modifies this
      ensures Valid() && isSelecting && selected == old(selected)
      ensures toolbars == old(toolbars) + [0]
    {
      isSelecting := true;
      toolbars := toolbars + [0];
    }

    /** `stopSelection`: the mode ends, the first toolbar goes, and the set is emptied. */
    method StopSelection()
      requires Valid()
      modifies this
      ensures Valid() && !isSelecting && selected == []
      ensures toolbars == if old(toolbars) == [] then [] else old(toolbars)[1..]
    {
      isSelecting := false;
      if toolbars != [] {
        toolbars := toolbars[1..];
      }
      selected := [];
    }

    /** `updateSelectionCount`: the first toolbar's count becomes the set's size. */
    method UpdateSelectionCount()
      requires Valid()
      modifies this
      ensures Valid() && CountShown()
      ensures selected == old(selected) && isSelecting == old(isSelecting)
      ensures toolbars == if old(toolbars) == [] then [] else old(toolbars)[0 := |selected|]
    {
      if toolbars != [] {
        toolbars := toolbars[0 := |selected|];
      }
    }

    /** `toggleTweetSelection(tweetId, element)` */
    method ToggleTweetSelection(id: string)
      requires Valid()
      modifies this
      ensures Valid() && CountShown()
      ensures selected == Toggle(old(selected), id) && isSelecting == old(isSelecting)
      ensures toolbars == if old(toolbars) == [] then [] else old(toolbars)[0 := |selected|]
    {
      selected := Toggle(selected, id);
      UpdateSelectionCount();
    }

    /** `handleSelectionClick(e)`: `ancestor` is `e.target.closest('[data-testid="tweet"], article')`.
        Outside selection mode or off a tweet the click is left alone; otherwise its default action
        is prevented and the tweet's id (read by `extractTweetId` at `nowMs`) is toggled. That id is
        never empty, so the toggle always happens. */
    method HandleSelectionClick(ancestor: Option<Element>, nowMs: nat) returns (prevented: bool)
      requires Valid()
      modifies this
      ensures Valid() && isSelecting == old(isSelecting)
      ensures prevented <==> old(isSelecting) && ancestor.Some?
      ensures !prevented ==> selected == old(selected) && toolbars == old(toolbars)
      ensures prevented ==> selected == Toggle(old(selected), InjectedTweetIdOf(ancestor.value, nowMs)) && CountShown()
      ensures prevented ==> toolbars == if old(toolbars) == [] then [] else old(toolbars)[0 := |selected|]
    {
      if !isSelecting {
        return false;
      }
      if ancestor.None? {
        return false;
      }
      prevented := true;
      var id := InjectedTweetIdOf(ancestor.value, nowMs);
      if id != "" {
        ToggleTweetSelection(id);
      }
    }

    /** `selectAll`: the ids of the visible tweets are added to the set, whether or not selection
        mode is on. */
    method SelectAll(elems: seq<Element>, clocks: nat -> Clock)
      requires Valid()
      modifies this
      ensures Valid() && CountShown() && isSelecting == old(isSelecting)
      ensures selected == AddAll(old(selected), IdsOf(VisibleTweets(elems, clocks)))
      ensures toolbars == if old(toolbars) == [] then [] else old(toolbars)[0 := |selected|]
    {
      var tweets := ExtractVisibleTweets(elems, clocks);
      AddTweets(tweets);
      UpdateSelectionCount();
    }

    /** The `forEach` of `selectAll`: each tweet's id is added to the set in turn. */
    method AddTweets(tweets: seq<TweetRecord>)
      requires Valid()
      modifies this
      ensures Valid() && isSelecting == old(isSelecting) && toolbars == old(toolbars)
      ensures selected == AddAll(old(selected), IdsOf(tweets))
    {
      ghost var ids := IdsOf(tweets);
      var i := 0;
      while i < |tweets|
        invariant 0 <= i <= |tweets|
        invariant Valid() && isSelecting == old(isSelecting) && toolbars == old(toolbars)
        invariant selected == AddAll(old(selected), ids[..i])
      {
        AddAllSnoc(old(selected), ids, i);
        selected := Add(selected, tweets[i].id);
        i := i + 1;
      }
      assert ids[..i] == ids;
    }

    /** `exportSelected`: reads the set and changes nothing, neither the set nor the mode; the
        k-th selected id is looked up with the clock `clocks(k)`. */
    method ExportSelected(lookup: string -> Option<Element>, clocks: nat -> Clock, isoDate: string, isoName: string)
      returns (r: SelectionExport)
      ensures r == ExportSelectedOf(selected, lookup, clocks, isoDate, isoName)
    {
      if |selected| == 0 {
        return NothingSelected;
      }
      var tweets := [];
      var k := 0;
      while k < |selected|
        invariant 0 <= k <= |selected|
        invariant tweets == SelectedRecords(selected[..k], lookup, clocks)
      {
        FilterMapWithIndexSnoc(selected, k, SelectedRecord(lookup, clocks));
        var data := InjectedTweetDataOf(lookup(selected[k]), clocks(k));
        if data.Some? {
          tweets := tweets + [data.value];
        }
        k := k + 1;
      }
      assert selected[..k] == selected;
      if |tweets| > 0 {
        r := Exported(ExportTweets(tweets, isoDate, isoName));
      } else {
        r := NothingFound;
      }
    }
  }

  /** Two toggles of different ids, neither selected before, grow the set by two. */
  lemma ToggleTwoNewIds(s: seq<string>, a: string, b: string)
    requires Distinct(s) && a != b && a !in s && b !in s
    ensures Toggle(Toggle(s, a), b) == s + [a, b]
  {
  }

  /** Clicking the same tweet twice in selection mode, each click reading the clock (`t1`, `t2`)
      when its id is read. When the id comes from the page, or both clock strings end in the same
      six digits, the second click undoes the first; otherwise the two clicks select two different
      synthetic ids, and the set grows by two when neither was selected. */
  method ClickTwice(b: BulkExport, ancestor: Element, t1: nat, t2: nat)
    requires b.Valid() && b.isSelecting
    modifies b
    ensures b.Valid() && b.isSelecting
    ensures (FirstStatusId(ancestor.statusLinks).Some? || DataTweetId(ancestor) != ""
        || SliceFromEnd(DecimalString(t1), 6) == SliceFromEnd(DecimalString(t2), 6)) ==>
      (forall y :: y in b.selected <==> y in old(b.selected)) && |b.selected| == |old(b.selected)|
    ensures (FirstStatusId(ancestor.statusLinks).None? && DataTweetId(ancestor) == ""
        && SliceFromEnd(DecimalString(t1), 6) != SliceFromEnd(DecimalString(t2), 6)
        && InjectedTweetIdOf(ancestor, t1) !in old(b.selected) && InjectedTweetIdOf(ancestor, t2) !in old(b.selected)) ==>
      |b.selected| == |old(b.selected)| + 2
  {
    ghost var s := b.selected;
    var p1 := b.HandleSelectionClick(Some(ancestor), t1);
    var p2 := b.HandleSelectionClick(Some(ancestor), t2);
    ghost var id1, id2 := InjectedTweetIdOf(ancestor, t1), InjectedTweetIdOf(ancestor, t2);
    ScriptsAgreeOnId(ancestor, t1);
    ScriptsAgreeOnId(ancestor, t2);
    IdsAgreeAcrossClocks(ancestor, t1, t2);
    if id1 == id2 {
      ToggleTwice(s, id1);
    } else if id1 !in s && id2 !in s {
      ToggleTwoNewIds(s, id1, id2);
    }
  }
}
