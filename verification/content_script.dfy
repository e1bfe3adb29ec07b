/**
 * The content script's state (`TweetExportContent` in content.js): the tweet
 * index, the `isProcessing` gate, candidate discovery, the cold-start scan, the
 * mutation-observer callback and the message handlers that read the index.
 */
module ContentScript {
  import opened Wrappers
  import opened Js
  import opened Seqs
  import opened Dom
  import opened Records
  import opened TweetIds
  import opened TweetMap
  import opened ContentExtract
  import opened TweetFilter

  // ---------------------------------------------------------------------------
  // Candidate discovery

  /** `extractTweetsFromElement(root)`, where `matches[s]` is `root.querySelectorAll(selector s)`
      for the four candidate selectors in their listed order: the `forEach` over selectors and
      matches pushes each element not already collected. */
  method ExtractTweetsFromElement(matches: seq<seq<Element>>) returns (tweets: seq<Element>)
    ensures tweets == Dedup(Concat(matches))
  {
    tweets := [];
    var i := 0;
    while i < |matches|
      invariant 0 <= i <= |matches|
      invariant tweets == Dedup(Concat(matches[..i]))
    {
      var j := 0;
      assert Concat(matches[..i]) + matches[i][..j] == Concat(matches[..i]);
      while j < |matches[i]|
        invariant 0 <= j <= |matches[i]|
        invariant tweets == Dedup(Concat(matches[..i]) + matches[i][..j])
      {
        var e := matches[i][j];
        ghost var seen := Concat(matches[..i]) + matches[i][..j];
        assert Concat(matches[..i]) + matches[i][..j + 1] == seen + [e];
        assert (seen + [e])[..|seen|] == seen;
        if e !in tweets {
          tweets := tweets + [e];
        }
        j := j + 1;
      }
      assert matches[i][..j] == matches[i];
      assert matches[..i + 1][..i] == matches[..i];
      i := i + 1;
    }
    assert matches[..i] == matches;
  }

  /** The candidates of one discovery pass hold no element twice, hold every element some selector
      matched, and keep first-seen order (selector order, then match order). */
  lemma CandidatesShape(matches: seq<seq<Element>>)
    ensures Distinct(Dedup(Concat(matches)))
    ensures forall e :: e in Dedup(Concat(matches)) <==> exists s :: 0 <= s < |matches| && e in matches[s]
    ensures IsSubsequence(Dedup(Concat(matches)), Concat(matches))
  {
    DedupDistinct(Concat(matches));
    DedupMembers(Concat(matches));
    ConcatMembers(matches);
    DedupIsSubsequence(Concat(matches));
  }

  // ---------------------------------------------------------------------------
  // The index as a value

  /** Every record is stored under its own id. */
  predicate KeyedById(m: OrderedMap<TweetRecord>)
  {
    forall k :: k in m.entries ==> m.entries[k].id == k
  }

  predicate IndexValid(m: OrderedMap<TweetRecord>)
  {
    Valid(m) && KeyedById(m)
  }

  /** What `processTweet` does to the index with the gate open, given what `extractTweetData`
      returned: a record replaces whatever its id mapped to; null changes nothing. */
  function Upsert(m: OrderedMap<TweetRecord>, data: Option<TweetRecord>): (r: OrderedMap<TweetRecord>)
    requires IndexValid(m)
    ensures IndexValid(r)
    ensures data.None? ==> r == m
    ensures data.Some? && data.value.id != "" ==>
      Get(r, data.value.id) == data && forall k :: k != data.value.id ==> Get(r, k) == Get(m, k)
    ensures Size(m) <= Size(r) <= Size(m) + 1
  {
    match data
    case None => m
    case Some(t) => if t.id != "" then Set(m, t.id, t) else m
  }

  /** Storing the same record twice is storing it once. */
  lemma UpsertIdempotent(m: OrderedMap<TweetRecord>, data: Option<TweetRecord>)
    requires IndexValid(m)
    ensures Upsert(Upsert(m, data), data) == Upsert(m, data)
  {
    if data.Some? && data.value.id != "" {
      SetTwice(m, data.value.id, data.value, data.value);
    }
  }

  /** Processing one unchanged element snapshot twice at one clock leaves exactly one entry for its
      id. A live tweet is not unchanged: its export button adds to its text, which feeds a
      synthetic id. */
  lemma ProcessSameElementTwice(m: OrderedMap<TweetRecord>, e: Element, clock: Clock)
    requires IndexValid(m)
    ensures Upsert(Upsert(m, TweetDataOf(e, clock)), TweetDataOf(e, clock)) == Upsert(m, TweetDataOf(e, clock))
    ensures Size(Upsert(m, TweetDataOf(e, clock))) == Size(m) + (if TweetDataOf(e, clock).Some? && Get(m, TweetIdOf(e, clock.idMillis)).None? then 1 else 0)
  {
    UpsertIdempotent(m, TweetDataOf(e, clock));
  }

  /** One element processed at two clocks, giving the records `t1` and `t2` (whose ids are the
      element's ids at those clocks, as `TweetDataOf` ensures): under a page-given id the second
      record overwrites the first; under synthetic ids whose clocks differ in their last six digits
      both are kept when neither id was present before. */
  lemma ReprocessingAtOtherClock(m: OrderedMap<TweetRecord>, e: Element, c1: Clock, c2: Clock, t1: TweetRecord, t2: TweetRecord)
    requires IndexValid(m)
    requires t1.id == TweetIdOf(e, c1.idMillis) && t2.id == TweetIdOf(e, c2.idMillis)
    ensures FirstStatusId(e.statusLinks).Some? || DataTweetId(e) != "" ==>
      Size(Upsert(Upsert(m, Some(t1)), Some(t2))) == Size(Upsert(m, Some(t1)))
    ensures (FirstStatusId(e.statusLinks).None? && DataTweetId(e) == "" && Get(m, t1.id).None? && Get(m, t2.id).None?
        && SliceFromEnd(DecimalString(c1.idMillis), 6) != SliceFromEnd(DecimalString(c2.idMillis), 6)) ==>
      Size(Upsert(Upsert(m, Some(t1)), Some(t2))) == Size(m) + 2
  {
    var m1 := Upsert(m, Some(t1));
    if FirstStatusId(e.statusLinks).Some? || DataTweetId(e) != "" {
      StructuralIdIgnoresClock(e, c1.idMillis, c2.idMillis);
      assert Get(m1, t2.id).Some?;
    }
    if FirstStatusId(e.statusLinks).None? && DataTweetId(e) == "" && Get(m, t1.id).None? && Get(m, t2.id).None?
        && SliceFromEnd(DecimalString(c1.idMillis), 6) != SliceFromEnd(DecimalString(c2.idMillis), 6) {
      GeneratedIdsAgreeIffClockTailsAgree(e.textContent, c1.idMillis, c2.idMillis);
      assert t1.id != t2.id;
      assert Get(m1, t2.id) == Get(m, t2.id);
    }
  }

  /** The records in the index carry pairwise distinct ids. */
  lemma IndexIdsDistinct(m: OrderedMap<TweetRecord>)
    requires IndexValid(m)
    ensures forall i, j :: 0 <= i < j < Size(m) ==> Values(m)[i].id != Values(m)[j].id
  {
  }

  /** The records of a batch stored one after the other. */
  function UpsertAll(m: OrderedMap<TweetRecord>, batch: seq<Option<TweetRecord>>): (r: OrderedMap<TweetRecord>)
    requires IndexValid(m)
    ensures IndexValid(r)
    ensures Size(m) <= Size(r) <= Size(m) + |batch|
  {
    if batch == [] then m
    else
      var n := |batch| - 1;
      Upsert(UpsertAll(m, batch[..n]), batch[n])
  }

  lemma {:induction false} UpsertAllAppend(m: OrderedMap<TweetRecord>, a: seq<Option<TweetRecord>>, b: seq<Option<TweetRecord>>)
    requires IndexValid(m)
    ensures UpsertAll(m, a + b) == UpsertAll(UpsertAll(m, a), b)
  {
    if b == [] {
      assert a + b == a;
    } else {
      var n := |b| - 1;
      assert (a + b)[..|a + b| - 1] == a + b[..n];
      UpsertAllAppend(m, a, b[..n]);
    }
  }

  /** A batch with every candidate present keeps, for each id, the record of its last candidate. */
  lemma {:induction false} UpsertAllLastWins(m: OrderedMap<TweetRecord>, batch: seq<Option<TweetRecord>>, j: nat)
    requires IndexValid(m)
    requires j < |batch| && batch[j].Some? && batch[j].value.id != ""
    requires forall k :: j < k < |batch| && batch[k].Some? ==> batch[k].value.id != batch[j].value.id
    ensures Get(UpsertAll(m, batch), batch[j].value.id) == batch[j]
  {
    var n := |batch| - 1;
    if j < n {
      UpsertAllLastWins(m, batch[..n], j);
    }
  }

  /** The clock readings of a batch whose first candidate reads `clocks(first)`. */
  function Shift(clocks: nat -> Clock, first: nat): nat -> Clock
  {
    (k: nat) => clocks(first + k)
  }

  lemma ShiftAt(clocks: nat -> Clock, first: nat, k: nat)
    ensures Shift(clocks, first)(k) == clocks(first + k)
  {
  }

  /** `extractTweetData` applied to the i-th candidate of a batch, reading the clock `clocks(i)`. */
  function ExtractAt(clocks: nat -> Clock): (Element, nat) -> Option<TweetRecord>
  {
    (e: Element, i: nat) => TweetDataOf(e, clocks(i))
  }

  lemma ShiftShift(clocks: nat -> Clock, first: nat, start: nat, n: nat, i: nat)
    requires start == first + n
    ensures Shift(clocks, start)(i) == Shift(clocks, first)(n + i)
  {
    ShiftAt(clocks, start, i);
    ShiftAt(clocks, first, n + i);
  }

  lemma ExtractAtIs(clocks: nat -> Clock, e: Element, i: nat)
    ensures ExtractAt(clocks)(e, i) == TweetDataOf(e, clocks(i))
  {
  }

  lemma ExtractAtCongruent(c1: nat -> Clock, c2: nat -> Clock, e: Element, i: nat, j: nat)
    requires c1(i) == c2(j)
    ensures ExtractAt(c1)(e, i) == ExtractAt(c2)(e, j)
  {
    ExtractAtIs(c1, e, i);
    ExtractAtIs(c2, e, j);
  }

  lemma ExtractAtApply(clocks: nat -> Clock, first: nat, e: Element, i: nat)
    ensures ExtractAt(Shift(clocks, first))(e, i) == TweetDataOf(e, clocks(first + i))
  {
    ExtractAtIs(Shift(clocks, first), e, i);
    ShiftAt(clocks, first, i);
  }

  /** What `extractTweetData` returns for each candidate of a batch, candidate i reading the clock
      `clocks(first + i)`. */
  function Extracted(elems: seq<Element>, clocks: nat -> Clock, first: nat): (r: seq<Option<TweetRecord>>)
    ensures |r| == |elems|
  {
    MapWithIndex(elems, ExtractAt(Shift(clocks, first)))
  }

  lemma ExtractedAt(elems: seq<Element>, clocks: nat -> Clock, first: nat, i: nat)
    requires i < |elems|
    ensures Extracted(elems, clocks, first)[i] == TweetDataOf(elems[i], clocks(first + i))
  {
    MapWithIndexAt(elems, ExtractAt(Shift(clocks, first)), i);
    ExtractAtApply(clocks, first, elems[i], i);
  }

  lemma ExtractedSnoc(elems: seq<Element>, clocks: nat -> Clock, first: nat, i: nat)
    requires i < |elems|
    ensures Extracted(elems[..i + 1], clocks, first) == Extracted(elems[..i], clocks, first) + [TweetDataOf(elems[i], clocks(first + i))]
  {
    MapWithIndexSnoc(elems, i, ExtractAt(Shift(clocks, first)));
    ExtractAtApply(clocks, first, elems[i], i);
  }

  /** The second part of a batch reads the clocks from `start`, where the first part stopped. */
  lemma ExtractedAppend(a: seq<Element>, b: seq<Element>, clocks: nat -> Clock, first: nat, start: nat)
    requires start == first + |a|
    ensures Extracted(a + b, clocks, first) == Extracted(a, clocks, first) + Extracted(b, clocks, start)
  {
    ExtractAtShifted(clocks, first, start, |a|);
    MapWithIndexAppend(a, b, ExtractAt(Shift(clocks, first)), ExtractAt(Shift(clocks, start)));
  }

  /** Extraction reading the clocks from `start` is extraction reading them from `first`, n places on. */
  lemma ExtractAtShifted(clocks: nat -> Clock, first: nat, start: nat, n: nat)
    requires start == first + n
    ensures forall x, i: nat :: ExtractAt(Shift(clocks, start))(x, i) == ExtractAt(Shift(clocks, first))(x, n + i)
  {
    forall x, i: nat
      ensures ExtractAt(Shift(clocks, start))(x, i) == ExtractAt(Shift(clocks, first))(x, n + i)
    {
      ExtractAtShiftedAt(clocks, first, start, n, x, i);
    }
  }

  lemma ExtractAtShiftedAt(clocks: nat -> Clock, first: nat, start: nat, n: nat, x: Element, i: nat)
    requires start == first + n
    ensures ExtractAt(Shift(clocks, start))(x, i) == ExtractAt(Shift(clocks, first))(x, n + i)
  {
    ShiftShift(clocks, first, start, n, i);
    ExtractAtCongruent(Shift(clocks, start), Shift(clocks, first), x, i, n + i);
  }

  // ---------------------------------------------------------------------------
  // Mutation batches

  /** A node of a mutation record's `addedNodes`: only element nodes are scanned; an element node
      carries the results of the four candidate selectors within its subtree. */
  datatype AddedNode = OtherNode | ElementNode(matches: seq<seq<Element>>)

  /** The candidates the observer callback processes, in order, for a list of added nodes. Each
      node is deduplicated on its own; an element found under two nodes is processed twice. */
  function NodeCandidates(nodes: seq<AddedNode>): (r: seq<Element>)
    ensures (forall j :: 0 <= j < |nodes| ==> nodes[j].OtherNode?) ==> r == []
  {
    if nodes == [] then []
    else
      var n := |nodes| - 1;
      assert forall j :: 0 <= j < n ==> nodes[..n][j] == nodes[j];
      NodeCandidates(nodes[..n]) + CandidatesOf(nodes[n])
  }

  /** The candidates discovered under one added node. */
  function CandidatesOf(node: AddedNode): seq<Element>
  {
    if node.ElementNode? then Dedup(Concat(node.matches)) else []
  }

  /** `e` is discovered under one of the nodes. */
  predicate FromSomeNode(e: Element, nodes: seq<AddedNode>)
  {
    exists j :: 0 <= j < |nodes| && e in CandidatesOf(nodes[j])
  }

  lemma FromSomeNodeSnoc(e: Element, nodes: seq<AddedNode>)
    requires nodes != []
    ensures FromSomeNode(e, nodes) <==> FromSomeNode(e, nodes[..|nodes| - 1]) || e in CandidatesOf(nodes[|nodes| - 1])
  {
    var n := |nodes| - 1;
    var init := nodes[..n];
    if FromSomeNode(e, nodes) {
      var j :| 0 <= j < |nodes| && e in CandidatesOf(nodes[j]);
      if j < n {
        assert init[j] == nodes[j];
        assert FromSomeNode(e, init);
      }
    }
    if FromSomeNode(e, init) {
      var j :| 0 <= j < n && e in CandidatesOf(init[j]);
      assert init[j] == nodes[j];
      assert FromSomeNode(e, nodes);
    }
    if e in CandidatesOf(nodes[n]) {
      assert FromSomeNode(e, nodes);
    }
  }

  /** The observer processes exactly the elements discovered under some added node. */
  lemma {:induction false} NodeCandidatesMembers(nodes: seq<AddedNode>)
    ensures forall e :: e in NodeCandidates(nodes) <==> FromSomeNode(e, nodes)
  {
    if nodes != [] {
      var n := |nodes| - 1;
      NodeCandidatesMembers(nodes[..n]);
      forall e
        ensures e in NodeCandidates(nodes) <==> FromSomeNode(e, nodes)
      {
        FromSomeNodeSnoc(e, nodes);
      }
    }
  }

  /** The candidates the observer callback processes, in order, for a list of mutation records. */
  function MutationCandidates(mutations: seq<seq<AddedNode>>): (r: seq<Element>)
    ensures (forall i :: 0 <= i < |mutations| ==> mutations[i] == []) ==> r == []
  {
    if mutations == [] then []
    else
      var n := |mutations| - 1;
      assert forall i :: 0 <= i < n ==> mutations[..n][i] == mutations[i];
      MutationCandidates(mutations[..n]) + NodeCandidates(mutations[n])
  }

  /** `e` is discovered under an added node of one of the mutation records. */
  predicate FromSomeMutation(e: Element, mutations: seq<seq<AddedNode>>)
  {
    exists i :: 0 <= i < |mutations| && FromSomeNode(e, mutations[i])
  }

  lemma FromSomeMutationSnoc(e: Element, mutations: seq<seq<AddedNode>>)
    requires mutations != []
    ensures FromSomeMutation(e, mutations) <==>
      FromSomeMutation(e, mutations[..|mutations| - 1]) || FromSomeNode(e, mutations[|mutations| - 1])
  {
    var n := |mutations| - 1;
    var init := mutations[..n];
    if FromSomeMutation(e, mutations) {
      var i :| 0 <= i < |mutations| && FromSomeNode(e, mutations[i]);
      if i < n {
        assert init[i] == mutations[i];
        assert FromSomeMutation(e, init);
      }
    }
    if FromSomeMutation(e, init) {
      var i :| 0 <= i < n && FromSomeNode(e, init[i]);
      assert init[i] == mutations[i];
      assert FromSomeMutation(e, mutations);
    }
    if FromSomeNode(e, mutations[n]) {
      assert FromSomeMutation(e, mutations);
    }
  }

  /** The observer callback processes exactly the elements discovered under an added node of
      some mutation record. */
  lemma {:induction false} MutationCandidatesMembers(mutations: seq<seq<AddedNode>>)
    ensures forall e :: e in MutationCandidates(mutations) <==> FromSomeMutation(e, mutations)
  {
    if mutations != [] {
      var n := |mutations| - 1;
      MutationCandidatesMembers(mutations[..n]);
      NodeCandidatesMembers(mutations[n]);
      forall e
        ensures e in MutationCandidates(mutations) <==> FromSomeMutation(e, mutations)
      {
        FromSomeMutationSnoc(e, mutations);
      }
    }
  }

  lemma NodeCandidatesSnoc(nodes: seq<AddedNode>, j: nat)
    requires j < |nodes|
    ensures NodeCandidates(nodes[..j + 1]) == NodeCandidates(nodes[..j]) + CandidatesOf(nodes[j])
  {
    assert nodes[..j + 1][..j] == nodes[..j];
  }

  lemma MutationCandidatesSnoc(mutations: seq<seq<AddedNode>>, i: nat)
    requires i < |mutations|
    ensures MutationCandidates(mutations[..i + 1]) == MutationCandidates(mutations[..i]) + NodeCandidates(mutations[i])
  {
    assert mutations[..i + 1][..i] == mutations[..i];
  }

  /** Processing two batches one after the other is processing their concatenation `whole`, the
      second batch's clocks continuing at `start`, where the first one's stopped. */
  lemma UpsertExtractedAppend(m: OrderedMap<TweetRecord>, a: seq<Element>, b: seq<Element>, whole: seq<Element>, clocks: nat -> Clock, first: nat, start: nat)
    requires IndexValid(m) && whole == a + b && start == first + |a|
    ensures UpsertAll(m, Extracted(whole, clocks, first)) ==
      UpsertAll(UpsertAll(m, Extracted(a, clocks, first)), Extracted(b, clocks, start))
  {
    ExtractedAppend(a, b, clocks, first, start);
    UpsertAllAppend(m, Extracted(a, clocks, first), Extracted(b, clocks, start));
  }

  /** One more added node: its candidates are processed after those of the nodes before it. */
  lemma AddedNodeStep(m: OrderedMap<TweetRecord>, nodes: seq<AddedNode>, j: nat, clocks: nat -> Clock, first: nat, start: nat)
    requires IndexValid(m) && j < |nodes|
    requires start == first + |NodeCandidates(nodes[..j])|
    ensures UpsertAll(UpsertAll(m, Extracted(NodeCandidates(nodes[..j]), clocks, first)), Extracted(CandidatesOf(nodes[j]), clocks, start))
      == UpsertAll(m, Extracted(NodeCandidates(nodes[..j + 1]), clocks, first))
  {
    NodeCandidatesSnoc(nodes, j);
    UpsertExtractedAppend(m, NodeCandidates(nodes[..j]), CandidatesOf(nodes[j]), NodeCandidates(nodes[..j + 1]), clocks, first, start);
  }

  /** One more mutation: its added nodes are processed after those of the mutations before it. */
  lemma MutationStep(m: OrderedMap<TweetRecord>, mutations: seq<seq<AddedNode>>, i: nat, clocks: nat -> Clock, start: nat)
    requires IndexValid(m) && i < |mutations|
    requires start == |MutationCandidates(mutations[..i])|
    ensures UpsertAll(UpsertAll(m, Extracted(MutationCandidates(mutations[..i]), clocks, 0)), Extracted(NodeCandidates(mutations[i]), clocks, start))
      == UpsertAll(m, Extracted(MutationCandidates(mutations[..i + 1]), clocks, 0))
  {
    MutationCandidatesSnoc(mutations, i);
    UpsertExtractedAppend(m, MutationCandidates(mutations[..i]), NodeCandidates(mutations[i]), MutationCandidates(mutations[..i + 1]), clocks, 0, start);
  }

  // ---------------------------------------------------------------------------
  // The content script object

  class TweetExportContent {
    var tweets: OrderedMap<TweetRecord>
    var isProcessing: bool

    ghost predicate Consistent()
      reads this
    {
      IndexValid(tweets)
    }

    /** `new TweetExportContent()`: an empty index and an open gate, then `init`, which installs the
        observer and calls `scanExistingTweets`. The constructor returns with the gate closed: it
        stays closed until the cold-start timer fires (`ColdStartTimerFires`), and every observer
        callback delivered before then stores nothing. */
    constructor()
      ensures Consistent()
      ensures tweets == Empty() && isProcessing
    {
      tweets := Empty();
      isProcessing := false;
      new;
      ScanExistingTweets();
    }

    /** `processTweet`: nothing while the gate is closed; otherwise the record is stored under its id. */
    method ProcessTweet(e: Element, clock: Clock)
      requires Consistent()
      modifies this
      ensures Consistent() && isProcessing == old(isProcessing)
      ensures tweets == if old(isProcessing) then old(tweets) else Upsert(old(tweets), TweetDataOf(e, clock))
    {
      if isProcessing {
        return;
      }
      var data := ExtractTweetData(e, clock);
      if data.Some? && data.value.id != "" {
        tweets := Set(tweets, data.value.id, data.value);
      }
    }

    /** `tweets.forEach(tweet => this.processTweet(tweet))`, candidate i reading `clocks(first + i)`. */
    method ProcessBatch(elems: seq<Element>, clocks: nat -> Clock, first: nat)
      requires Consistent()
      modifies this
      ensures Consistent() && isProcessing == old(isProcessing)
      ensures tweets == if old(isProcessing) then old(tweets) else UpsertAll(old(tweets), Extracted(elems, clocks, first))
    {
      var i := 0;
      while i < |elems|
        invariant 0 <= i <= |elems|
        invariant Consistent() && isProcessing == old(isProcessing)
        invariant tweets == if old(isProcessing) then old(tweets) else UpsertAll(old(tweets), Extracted(elems[..i], clocks, first))
      {
        ghost var done := Extracted(elems[..i], clocks, first);
        ghost var x := TweetDataOf(elems[i], clocks(first + i));
        ExtractedSnoc(elems, clocks, first, i);
        assert (done + [x])[..|done|] == done;
        ProcessTweet(elems[i], clocks(first + i));
        i := i + 1;
      }
      assert elems[..i] == elems;
    }

    /** `scanExistingTweets`, the part that runs at once: the gate closes and the cold-start timer is
        set; the index is not touched. */
    method ScanExistingTweets()
      requires Consistent()
      modifies this
      ensures Consistent() && isProcessing
      ensures tweets == old(tweets)
    {
      isProcessing := true;
    }

    /** The callback of the cold-start timer: the candidates under `document.body` (`bodyMatches`, the
        four selectors' matches when the timer fires) are processed, then the gate opens. The gate
        that `ScanExistingTweets` closed is still closed while the batch runs, so after a scan the
        batch stores nothing; `size` is the `tweets.size` the callback logs. */
    method ColdStartTimerFires(bodyMatches: seq<seq<Element>>, clocks: nat -> Clock) returns (size: nat)
      requires Consistent()
      modifies this
      ensures Consistent() && !isProcessing
      ensures tweets == if old(isProcessing) then old(tweets)
        else UpsertAll(old(tweets), Extracted(Dedup(Concat(bodyMatches)), clocks, 0))
      ensures size == Size(tweets)
    {
      var candidates := ExtractTweetsFromElement(bodyMatches);
      ProcessBatch(candidates, clocks, 0);
      isProcessing := false;
      size := Size(tweets);
    }

    /** One added node: an element node's candidates are discovered and processed, the first
        reading `clocks(first)`; any other node is skipped. While the gate is closed (before the
        cold-start timer fires) every candidate is dropped. */
    method ProcessAddedNode(node: AddedNode, clocks: nat -> Clock, first: nat) returns (count: nat)
      requires Consistent()
      modifies this
      ensures Consistent() && isProcessing == old(isProcessing)
      ensures count == |CandidatesOf(node)|
      ensures tweets == if old(isProcessing) then old(tweets)
        else UpsertAll(old(tweets), Extracted(CandidatesOf(node), clocks, first))
    {
      if node.ElementNode? {
        var candidates := ExtractTweetsFromElement(node.matches);
        ProcessBatch(candidates, clocks, first);
        count := |candidates|;
      } else {
        count := 0;
      }
    }

    /** The inner loop of the `MutationObserver` callback over one mutation's added nodes, the
        first candidate reading `clocks(first)`. */
    method ProcessAddedNodes(nodes: seq<AddedNode>, clocks: nat -> Clock, first: nat) returns (count: nat)
      requires Consistent()
      modifies this
      ensures Consistent() && isProcessing == old(isProcessing)
      ensures count == |NodeCandidates(nodes)|
      ensures tweets == if old(isProcessing) then old(tweets)
        else UpsertAll(old(tweets), Extracted(NodeCandidates(nodes), clocks, first))
    {
      count := 0;
      var j := 0;
      while j < |nodes|
        invariant 0 <= j <= |nodes|
        invariant Consistent() && isProcessing == old(isProcessing)
        invariant count == |NodeCandidates(nodes[..j])|
        invariant tweets == if old(isProcessing) then old(tweets)
          else UpsertAll(old(tweets), Extracted(NodeCandidates(nodes[..j]), clocks, first))
      {
        NodeCandidatesSnoc(nodes, j);
        var start := first + count;
        var n := ProcessAddedNode(nodes[j], clocks, start);
        if !isProcessing {
          AddedNodeStep(old(tweets), nodes, j, clocks, first, start);
        }
        count := count + n;
        j := j + 1;
      }
      assert nodes[..j] == nodes;
    }

    /** The `MutationObserver` callback: for each mutation and each added element node, discover the
        candidates under it and process them; the k-th candidate overall reads `clocks(k)`. A callback
        delivered while the gate is closed stores nothing. */
    method OnMutations(mutations: seq<seq<AddedNode>>, clocks: nat -> Clock)
      requires Consistent()
      modifies this
      ensures Consistent() && isProcessing == old(isProcessing)
      ensures tweets == if old(isProcessing) then old(tweets)
        else UpsertAll(old(tweets), Extracted(MutationCandidates(mutations), clocks, 0))
    {
      var k := 0;
      var i := 0;
      while i < |mutations|
        invariant 0 <= i <= |mutations|
        invariant Consistent() && isProcessing == old(isProcessing)
        invariant k == |MutationCandidates(mutations[..i])|
        invariant tweets == if old(isProcessing) then old(tweets)
          else UpsertAll(old(tweets), Extracted(MutationCandidates(mutations[..i]), clocks, 0))
      {
        MutationCandidatesSnoc(mutations, i);
        var count := ProcessAddedNodes(mutations[i], clocks, k);
        if !isProcessing {
          MutationStep(old(tweets), mutations, i, clocks, k);
        }
        k := k + count;
        i := i + 1;
      }
      assert mutations[..i] == mutations;
    }

    /** `getPageTweets`: the index values in insertion order. */
    function PageTweets(): (r: seq<TweetRecord>)
      reads this
      requires Consistent()
      ensures |r| == Size(tweets)
      ensures forall t :: t in r ==> Get(tweets, t.id) == Some(t)
    {
      Values(tweets)
    }

    /** `handleFetchTweets`: the page tweets that pass the criteria. */
    function HandleFetchTweets(c: Criteria, parseDate: string -> JsNumber): (r: seq<TweetRecord>)
      reads this
      requires Consistent()
      ensures IsSubsequence(r, PageTweets())
      ensures forall t :: t in r <==> t in PageTweets() && Keep(t, c, parseDate)
    {
      FetchPreservesOrder(PageTweets(), c, parseDate);
      FetchTweets(PageTweets(), c, parseDate)
    }

    /** `handleExportTweet`: an absent id fails with "Tweet not found"; a present one is handed to
        `exportSingleTweet`, whose message to the background carries exactly that record. */
    function HandleExportTweet(tweetId: string): (r: Result<seq<TweetRecord>, string>)
      reads this
      requires Consistent()
      ensures r.Failure? <==> Get(tweets, tweetId).None?
      ensures r.Failure? ==> r.error == "Tweet not found"
      ensures r.Success? ==> |r.value| == 1 && r.value[0].id == tweetId && r.value[0] in PageTweets()
    {
      match Get(tweets, tweetId)
      case None => Failure("Tweet not found")
      case Some(t) =>
        assert tweetId in tweets.keys;
        var j :| 0 <= j < |tweets.keys| && tweets.keys[j] == tweetId;
        assert PageTweets()[j] == t;
        Success([t])
    }
  }

  /** What the closed gate throws away: on a page already showing one tweet whose timestamp can
      be read, processing the cold-start batch with the gate open would store one record, where
      `ColdStartTimerFires` after `ScanExistingTweets` leaves the index as it was. */
  lemma ColdStartBatchNotEmpty(e: Element, clocks: nat -> Clock)
    requires !(TimeNodeOf(e).Some? && BadDatetime(TimeNodeOf(e).value))
    ensures Size(UpsertAll(Empty(), Extracted(Dedup(Concat([[e]])), clocks, 0))) == 1
  {
    assert Concat([[e]]) == [e];
    DedupOfDistinct([e]);
    ExtractedAt([e], clocks, 0, 0);
    var x := Extracted([e], clocks, 0);
    assert x == [TweetDataOf(e, clocks(0))];
    assert x[..0] == [];
    var empty: OrderedMap<TweetRecord> := Empty();
    assert UpsertAll(empty, x) == Upsert(empty, x[0]);
  }

  /** Opening the page: the script is constructed, an observer callback delivers `early` before the
      cold-start timer fires, the timer fires over the page as it then is (`bodyMatches`), and a
      later callback delivers `late`. Neither the tweets already on the page nor the early ones are
      stored; the index holds exactly what the late callback stored. */
  method PageLifecycle(early: seq<seq<AddedNode>>, bodyMatches: seq<seq<Element>>, late: seq<seq<AddedNode>>,
                       earlyClocks: nat -> Clock, scanClocks: nat -> Clock, lateClocks: nat -> Clock)
    returns (script: TweetExportContent, loggedSize: nat)
    ensures fresh(script) && script.Consistent() && !script.isProcessing
    ensures loggedSize == 0
    ensures script.tweets == UpsertAll(Empty(), Extracted(MutationCandidates(late), lateClocks, 0))
  {
    script := new TweetExportContent();
    script.OnMutations(early, earlyClocks);
    loggedSize := script.ColdStartTimerFires(bodyMatches, scanClocks);
    script.OnMutations(late, lateClocks);
  }
}
