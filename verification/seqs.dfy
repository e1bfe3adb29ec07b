/**
 * Sequence shapes the extension builds with arrays: an array filled with
 * push-if-absent (`if (!a.includes(x)) a.push(x)`), `Array.prototype.filter`,
 * the first selector of a fallback list that matches, and order-preserving
 * selection (subsequences).
 */
module Seqs {
  import opened Wrappers

  /** No element occurs twice. */
  predicate Distinct<T(==)>(s: seq<T>)
  {
    forall i, j :: 0 <= i < j < |s| ==> s[i] != s[j]
  }

  /** `r` is obtained from `s` by deleting elements, keeping the order of the rest. */
  predicate IsSubsequence<T(==)>(r: seq<T>, s: seq<T>)
  {
    if r == [] then true
    else if s == [] then false
    else if r[0] == s[0] then IsSubsequence(r[1..], s[1..])
    else IsSubsequence(r, s[1..])
  }

  lemma {:induction false} SubsequenceOfLast<T>(s: seq<T>, x: T)
    ensures IsSubsequence([x], s + [x])
  {
    if s != [] && s[0] != x {
      assert (s + [x])[1..] == s[1..] + [x];
      SubsequenceOfLast(s[1..], x);
    }
  }

  /** Appending the same element to both sides, or only to the larger side, keeps a subsequence. */
  lemma {:induction false} SubsequenceSnoc<T>(r: seq<T>, s: seq<T>, x: T)
    requires IsSubsequence(r, s)
    ensures IsSubsequence(r, s + [x])
    ensures IsSubsequence(r + [x], s + [x])
  {
    if r == [] {
      assert r + [x] == [x];
      SubsequenceOfLast(s, x);
    } else {
      assert s != [];
      assert (s + [x])[1..] == s[1..] + [x];
      if r[0] == s[0] {
        assert (r + [x])[1..] == r[1..] + [x];
        SubsequenceSnoc(r[1..], s[1..], x);
      } else {
        SubsequenceSnoc(r, s[1..], x);
      }
    }
  }

  lemma {:induction false} SubsequenceMembers<T>(r: seq<T>, s: seq<T>, x: T)
    requires IsSubsequence(r, s) && x in r
    ensures x in s
  {
    if r[0] == s[0] {
      if x != r[0] {
        assert x in r[1..];
        SubsequenceMembers(r[1..], s[1..], x);
      }
    } else {
      SubsequenceMembers(r, s[1..], x);
    }
  }

  /** The elements of `s`, each kept at its first occurrence: the array built by
      `s.forEach(x => { if (!a.includes(x)) a.push(x); })`. */
  function Dedup<T(==,!new)>(s: seq<T>): (r: seq<T>)
    ensures |r| <= |s|
  {
    if s == [] then []
    else
      var p := s[..|s| - 1];
      var x := s[|s| - 1];
      var d := Dedup(p);
      if x in d then d else d + [x]
  }

  /** The result has no repeats. */
  lemma {:induction false} DedupDistinct<T(!new)>(s: seq<T>)
    ensures Distinct(Dedup(s))
  {
    if s != [] {
      var p := s[..|s| - 1];
      DedupDistinct(p);
    }
  }

  /** Nothing is lost and nothing is invented: `Dedup(s)` holds exactly the elements of `s`. */
  lemma {:induction false} DedupMembers<T(!new)>(s: seq<T>)
    ensures forall x :: x in Dedup(s) <==> x in s
  {
    if s != [] {
      var p := s[..|s| - 1];
      assert s == p + [s[|s| - 1]];
      DedupMembers(p);
    }
  }

  /** Deduplication keeps the order of first occurrences: `Dedup(s)` is a subsequence of `s`. */
  lemma {:induction false} DedupIsSubsequence<T(!new)>(s: seq<T>)
    ensures IsSubsequence(Dedup(s), s)
  {
    if s != [] {
      var p := s[..|s| - 1];
      assert s == p + [s[|s| - 1]];
      DedupIsSubsequence(p);
      SubsequenceSnoc(Dedup(p), p, s[|s| - 1]);
    }
  }

  /** Elements already collected keep their positions when more input arrives. */
  lemma {:induction false} DedupPrefixStable<T(!new)>(a: seq<T>, b: seq<T>)
    ensures |Dedup(a)| <= |Dedup(a + b)|
    ensures Dedup(a + b)[..|Dedup(a)|] == Dedup(a)
  {
    if b == [] {
      assert a + b == a;
    } else {
      var b' := b[..|b| - 1];
      assert (a + b)[..|a + b| - 1] == a + b';
      DedupPrefixStable(a, b');
    }
  }

  /** Deduplicating input that has no repeats changes nothing. */
  lemma {:induction false} DedupOfDistinct<T(!new)>(s: seq<T>)
    requires Distinct(s)
    ensures Dedup(s) == s
  {
    if s != [] {
      var p := s[..|s| - 1];
      assert Distinct(p);
      DedupOfDistinct(p);
      assert s[|s| - 1] !in p;
    }
  }

  /** Concatenation of a list of lists, in order. */
  function Concat<T>(ss: seq<seq<T>>): (r: seq<T>)
    ensures |ss| == 1 ==> r == ss[0]
  {
    if ss == [] then [] else Concat(ss[..|ss| - 1]) + ss[|ss| - 1]
  }

  /** An element is in the concatenation exactly when it is in one of the parts. */
  lemma {:induction false} ConcatMembers<T(!new)>(ss: seq<seq<T>>)
    ensures forall x :: x in Concat(ss) <==> exists k :: 0 <= k < |ss| && x in ss[k]
  {
    if ss != [] {
      ConcatMembers(ss[..|ss| - 1]);
      assert forall k :: 0 <= k < |ss| - 1 ==> ss[..|ss| - 1][k] == ss[k];
    }
  }

  /** `s.filter(p)` */
  function Filter<T(!new)>(s: seq<T>, p: T -> bool): (r: seq<T>)
    ensures |r| <= |s|
    ensures forall x :: x in r <==> x in s && p(x)
  {
    if s == [] then []
    else if p(s[0]) then [s[0]] + Filter(s[1..], p)
    else
      assert forall x :: x in s && x != s[0] ==> x in s[1..];
      Filter(s[1..], p)
  }

  /** `filter` keeps the relative order of what it keeps. */
  lemma {:induction false} FilterIsSubsequence<T(!new)>(s: seq<T>, p: T -> bool)
    ensures IsSubsequence(Filter(s, p), s)
  {
    if s != [] {
      FilterIsSubsequence(s[1..], p);
      if p(s[0]) {
        assert Filter(s, p)[1..] == Filter(s[1..], p);
      } else {
        var r := Filter(s[1..], p);
        if r != [] {
          SubsequenceMembers(r, s[1..], r[0]);
          assert p(r[0]);
          assert r[0] != s[0];
        }
      }
    }
  }

  /** A filter with a predicate that holds everywhere keeps everything. */
  lemma {:induction false} FilterAll<T(!new)>(s: seq<T>, p: T -> bool)
    requires forall x :: x in s ==> p(x)
    ensures Filter(s, p) == s
  {
    if s != [] {
      FilterAll(s[1..], p);
    }
  }

  /** `[f(s[0], 0), f(s[1], 1), ...]`, built by appending one result per element. */
  function MapWithIndex<A, B>(s: seq<A>, f: (A, nat) -> B): (r: seq<B>)
    ensures |r| == |s|
  {
    if s == [] then [] else MapWithIndex(s[..|s| - 1], f) + [f(s[|s| - 1], |s| - 1)]
  }

  /** Nothing is dropped or reordered: the i-th result is computed from the i-th element. */
  lemma {:induction false} MapWithIndexAt<A, B>(s: seq<A>, f: (A, nat) -> B, i: nat)
    requires i < |s|
    ensures MapWithIndex(s, f)[i] == f(s[i], i)
  {
    if i < |s| - 1 {
      MapWithIndexAt(s[..|s| - 1], f, i);
    }
  }

  /** Appending one element appends one result. */
  lemma MapWithIndexSnoc<A, B>(s: seq<A>, i: nat, f: (A, nat) -> B)
    requires i < |s|
    ensures MapWithIndex(s[..i + 1], f) == MapWithIndex(s[..i], f) + [f(s[i], i)]
  {
    assert s[..i + 1][..i] == s[..i];
  }

  /** Mapping a concatenation: the second part is mapped with its indices shifted by the length of
      the first. */
  lemma {:induction false} MapWithIndexAppend<A, B>(a: seq<A>, b: seq<A>, f: (A, nat) -> B, g: (A, nat) -> B)
    requires forall x, i: nat :: g(x, i) == f(x, |a| + i)
    ensures MapWithIndex(a + b, f) == MapWithIndex(a, f) + MapWithIndex(b, g)
  {
    if b == [] {
      assert a + b == a;
    } else {
      var n := |b| - 1;
      assert (a + b)[..|a + b| - 1] == a + b[..n];
      MapWithIndexAppend(a, b[..n], f, g);
    }
  }

  /** The results `f` gives, in order, skipping the absent ones: a loop that pushes each non-null
      result, where `f` also receives the position. */
  function FilterMapWithIndex<A, B>(s: seq<A>, f: (A, nat) -> Option<B>): (r: seq<B>)
    ensures |r| <= |s|
  {
    if s == [] then []
    else
      var n := |s| - 1;
      var p := FilterMapWithIndex(s[..n], f);
      match f(s[n], n)
      case Some(y) => p + [y]
      case None => p
  }

  lemma FilterMapWithIndexSnoc<A, B>(s: seq<A>, i: nat, f: (A, nat) -> Option<B>)
    requires i < |s|
    ensures FilterMapWithIndex(s[..i + 1], f) ==
      FilterMapWithIndex(s[..i], f) + (match f(s[i], i) case Some(y) => [y] case None => [])
  {
    assert s[..i + 1][..i] == s[..i];
  }

  /** Every result comes from some position, and every present result is kept. */
  lemma {:induction false} FilterMapWithIndexMembers<A, B>(s: seq<A>, f: (A, nat) -> Option<B>)
    ensures forall y :: y in FilterMapWithIndex(s, f) <==> exists k :: 0 <= k < |s| && f(s[k], k) == Some(y)
  {
    if s != [] {
      var n := |s| - 1;
      FilterMapWithIndexMembers(s[..n], f);
      assert forall k :: 0 <= k < n ==> s[..n][k] == s[k];
    }
  }

  /** Nothing is skipped exactly when every position gives a result. */
  lemma {:induction false} FilterMapWithIndexAll<A, B>(s: seq<A>, f: (A, nat) -> Option<B>)
    ensures |FilterMapWithIndex(s, f)| == |s| <==> forall k :: 0 <= k < |s| ==> f(s[k], k).Some?
  {
    if s != [] {
      var n := |s| - 1;
      FilterMapWithIndexAll(s[..n], f);
      assert forall k :: 0 <= k < n ==> s[..n][k] == s[k];
    }
  }

  /** The value of the first entry that is present: the outcome of a loop that tries a
      list of selectors in order and returns on the first match. */
  function FirstSome<T>(hits: seq<Option<T>>): (r: Option<T>)
    ensures r.None? <==> forall i :: 0 <= i < |hits| ==> hits[i].None?
    ensures r.Some? ==> r in hits
  {
    if hits == [] then None
    else if hits[0].Some? then hits[0]
    else FirstSome(hits[1..])
  }

  /** `a || b || c` on three query results. */
  lemma FirstSomeOfThree<T>(a: Option<T>, b: Option<T>, c: Option<T>)
    ensures FirstSome([a, b, c]) == if a.Some? then a else if b.Some? then b else c
  {
    var hits := [a, b, c];
    assert hits[1..] == [b, c];
    assert [b, c][1..] == [c];
    assert [c][1..] == [];
    assert FirstSome([c]) == c;
    assert FirstSome([b, c]) == if b.Some? then b else c;
  }

  /** The entry `FirstSome` chooses is the earliest present one. */
  lemma {:induction false} FirstSomeAt<T>(hits: seq<Option<T>>, i: nat)
    requires i < |hits| && hits[i].Some?
    requires forall j :: 0 <= j < i ==> hits[j].None?
    ensures FirstSome(hits) == hits[i]
  {
    if i > 0 {
      FirstSomeAt(hits[1..], i - 1);
    }
  }

  /** The loop `for (const selector of selectors) { const el = query(selector); if (el) return el; }`
      over the already-resolved query results. */
  method FirstMatch<T>(hits: seq<Option<T>>) returns (r: Option<T>)
    ensures r == FirstSome(hits)
  {
    var i := 0;
    assert hits[i..] == hits;
    while i < |hits|
      invariant 0 <= i <= |hits|
      invariant FirstSome(hits[i..]) == FirstSome(hits)
    {
      if hits[i].Some? {
        return hits[i];
      }
      assert hits[i..][1..] == hits[i + 1..];
      i := i + 1;
    }
    return None;
  }
}
