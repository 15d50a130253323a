/**
 * The last step of a search: `matches.sort((a, b) => b.relevance - a.relevance)`
 * followed by `.slice(0, limit)`. The comparator orders by relevance,
 * highest first, and since ES2019 `Array.prototype.sort` is stable, matches
 * of equal relevance keep their scan order.
 */
module Ranking {
  import opened Types

  /** Non-increasing relevance from front to back. */
  ghost predicate SortedByRelevance(s: seq<SearchResult>) {
    forall i, j :: 0 <= i < j < |s| ==> s[i].relevance >= s[j].relevance
  }

  /** The matches of relevance `k`, in their order in `s`. */
  function WithRelevance(s: seq<SearchResult>, k: int): seq<SearchResult> {
    if s == [] then []
    else (if s[0].relevance == k then [s[0]] else []) + WithRelevance(s[1..], k)
  }

  /** The picked matches are exactly the matches of `s` with relevance `k`. */
  lemma {:induction false} WithRelevanceMembers(s: seq<SearchResult>, k: int, m: SearchResult)
    ensures m in WithRelevance(s, k) <==> m in s && m.relevance == k
  {
    if s != [] {
      WithRelevanceMembers(s[1..], k, m);
      assert s == [s[0]] + s[1..];
    }
  }

  /** Picking the matches of one relevance distributes over concatenation. */
  lemma {:induction false} WithRelevanceAppend(a: seq<SearchResult>, b: seq<SearchResult>, k: int)
    ensures WithRelevance(a + b, k) == WithRelevance(a, k) + WithRelevance(b, k)
    decreases |a|
  {
    if a != [] {
      assert (a + b)[0] == a[0];
      assert (a + b)[1..] == a[1..] + b;
      WithRelevanceAppend(a[1..], b, k);
    } else {
      assert a + b == b;
    }
  }

  /**
   * Inserts `m` before the first match that does not score higher, so that
   * `m` ends up ahead of the matches it ties with.
   */
  function Insert(m: SearchResult, s: seq<SearchResult>): (r: seq<SearchResult>)
    ensures multiset(r) == multiset(s) + multiset{m}
  {
    if s == [] || s[0].relevance <= m.relevance then
      [m] + s
    else
      assert s == [s[0]] + s[1..];
      [s[0]] + Insert(m, s[1..])
  }

  /** Inserting a match that scores at most `b` into matches that all score at most `b` keeps that bound. */
  lemma {:induction false} InsertBounded(m: SearchResult, s: seq<SearchResult>, b: int)
    requires m.relevance <= b
    requires forall i :: 0 <= i < |s| ==> s[i].relevance <= b
    ensures forall i :: 0 <= i < |Insert(m, s)| ==> Insert(m, s)[i].relevance <= b
  {
    if s != [] && s[0].relevance > m.relevance {
      InsertBounded(m, s[1..], b);
      var rest := Insert(m, s[1..]);
      assert forall i :: 0 < i <= |rest| ==> ([s[0]] + rest)[i] == rest[i - 1];
    }
  }

  /** Putting a match in front of sorted matches that score no higher keeps them sorted. */
  lemma SortedCons(x: SearchResult, s: seq<SearchResult>)
    requires SortedByRelevance(s)
    requires forall i :: 0 <= i < |s| ==> s[i].relevance <= x.relevance
    ensures SortedByRelevance([x] + s)
  {
    var r := [x] + s;
    forall i, j | 0 <= i < j < |r|
      ensures r[i].relevance >= r[j].relevance
    {
      assert r[j] == s[j - 1];
      if i > 0 {
        assert r[i] == s[i - 1];
      }
    }
  }

  /** Inserting into a sorted sequence keeps it sorted. */
  lemma {:induction false} InsertSorted(m: SearchResult, s: seq<SearchResult>)
    requires SortedByRelevance(s)
    ensures SortedByRelevance(Insert(m, s))
  {
    if s == [] || s[0].relevance <= m.relevance {
      SortedCons(m, s);
    } else {
      var tail := s[1..];
      assert SortedByRelevance(tail) by {
        assert forall i :: 0 <= i < |tail| ==> tail[i] == s[i + 1];
      }
      assert forall i :: 0 <= i < |tail| ==> tail[i].relevance <= s[0].relevance by {
        assert forall i :: 0 <= i < |tail| ==> tail[i] == s[i + 1];
      }
      InsertSorted(m, tail);
      InsertBounded(m, tail, s[0].relevance);
      SortedCons(s[0], Insert(m, tail));
    }
  }

  /** Inserting `m` puts it in front of the matches of its own relevance and leaves the other relevances alone. */
  lemma {:induction false} InsertWithRelevance(m: SearchResult, s: seq<SearchResult>, k: int)
    ensures WithRelevance(Insert(m, s), k) ==
              if m.relevance == k then [m] + WithRelevance(s, k) else WithRelevance(s, k)
  {
    if s == [] || s[0].relevance <= m.relevance {
      assert ([m] + s)[1..] == s;
    } else {
      var rest := Insert(m, s[1..]);
      InsertWithRelevance(m, s[1..], k);
      assert ([s[0]] + rest)[1..] == rest;
      if m.relevance == k {
        assert s[0].relevance != k;
      }
    }
  }

  /**
   * The stable sort by relevance, highest first, written as an insertion
   * sort: the result is a permutation of the input in non-increasing order
   * of relevance.
   */
  function SortByRelevance(s: seq<SearchResult>): (r: seq<SearchResult>)
    ensures multiset(r) == multiset(s)
    ensures SortedByRelevance(r)
  {
    if s == [] then []
    else
      var rest := SortByRelevance(s[1..]);
      assert s == [s[0]] + s[1..];
      InsertSorted(s[0], rest);
      Insert(s[0], rest)
  }

  /** The sort is stable: the matches of every relevance keep their input order. */
  lemma {:induction false} SortKeepsTieOrder(s: seq<SearchResult>, k: int)
    ensures WithRelevance(SortByRelevance(s), k) == WithRelevance(s, k)
  {
    if s != [] {
      SortKeepsTieOrder(s[1..], k);
      InsertWithRelevance(s[0], SortByRelevance(s[1..]), k);
    }
  }

  /** Two sequences with the same first match pick the same matches of relevance `j` from their tails. */
  lemma WithRelevanceTail(t: seq<SearchResult>, u: seq<SearchResult>, j: int)
    requires t != [] && u != [] && t[0] == u[0]
    requires WithRelevance(t, j) == WithRelevance(u, j)
    ensures WithRelevance(t[1..], j) == WithRelevance(u[1..], j)
  {
    var a, b := WithRelevance(t[1..], j), WithRelevance(u[1..], j);
    if t[0].relevance == j {
      assert a == ([t[0]] + a)[1..] && b == ([u[0]] + b)[1..];
    } else {
      assert [] + a == a && [] + b == b;
      assert WithRelevance(t, j) == a && WithRelevance(u, j) == b;
    }
  }

  /** Two non-empty sorted sequences with the same matches of every relevance, in the same order, start alike. */
  lemma SortedHeadsAgree(t: seq<SearchResult>, u: seq<SearchResult>)
    requires t != [] && u != []
    requires SortedByRelevance(t) && SortedByRelevance(u)
    requires forall k :: WithRelevance(t, k) == WithRelevance(u, k)
    ensures t[0] == u[0]
  {
    var k := t[0].relevance;
    WithRelevanceMembers(t, k, t[0]);
    WithRelevanceMembers(u, k, t[0]);
    WithRelevanceMembers(u, u[0].relevance, u[0]);
    WithRelevanceMembers(t, u[0].relevance, u[0]);
    assert u[0].relevance == k by {
      var i :| 0 <= i < |t| && t[i] == u[0];
      var i' :| 0 <= i' < |u| && u[i'] == t[0];
      assert t[i].relevance <= k && u[i'].relevance <= u[0].relevance;
    }
    assert WithRelevance(t, k)[0] == t[0];
    assert WithRelevance(u, k)[0] == u[0];
  }

  /**
   * Being sorted and keeping each relevance's order determines the sequence:
   * two sorted sequences with the same matches of every relevance, in the
   * same order, are equal.
   */
  lemma {:induction false} StableSortIsUnique(t: seq<SearchResult>, u: seq<SearchResult>)
    requires SortedByRelevance(t) && SortedByRelevance(u)
    requires forall k :: WithRelevance(t, k) == WithRelevance(u, k)
    ensures t == u
    decreases |t|
  {
    if t == [] && u == [] {
    } else if t == [] || u == [] {
      var w := if t == [] then u else t;
      assert WithRelevance(w, w[0].relevance) == [w[0]] + WithRelevance(w[1..], w[0].relevance);
      assert false;
    } else {
      SortedHeadsAgree(t, u);
      forall j
        ensures WithRelevance(t[1..], j) == WithRelevance(u[1..], j)
      {
        WithRelevanceTail(t, u, j);
      }
      assert SortedByRelevance(t[1..]) && SortedByRelevance(u[1..]) by {
        SortedSuffix(t);
        SortedSuffix(u);
      }
      StableSortIsUnique(t[1..], u[1..]);
      assert t == [t[0]] + t[1..] && u == [u[0]] + u[1..];
    }
  }

  /** Dropping the first match of a sorted sequence leaves it sorted. */
  lemma SortedSuffix(s: seq<SearchResult>)
    requires s != [] && SortedByRelevance(s)
    ensures SortedByRelevance(s[1..])
  {
    assert forall i :: 0 <= i < |s| - 1 ==> s[1..][i] == s[i + 1];
  }

  /**
   * Any sort of `s` by descending relevance that keeps ties in input order
   * (in particular the one the ES2019 `Array.prototype.sort` performs) gives
   * `SortByRelevance(s)`.
   */
  lemma SortByRelevanceIsTheStableSort(s: seq<SearchResult>, t: seq<SearchResult>)
    requires SortedByRelevance(t)
    requires forall k :: WithRelevance(t, k) == WithRelevance(s, k)
    ensures t == SortByRelevance(s)
  {
    forall k
      ensures WithRelevance(t, k) == WithRelevance(SortByRelevance(s), k)
    {
      SortKeepsTieOrder(s, k);
    }
    StableSortIsUnique(t, SortByRelevance(s));
  }

  /** The ranked result: the sorted matches cut to their first `limit` (`.slice(0, limit)`). */
  function Top(matches: seq<SearchResult>, limit: nat): seq<SearchResult> {
    var sorted := SortByRelevance(matches);
    if |sorted| <= limit then sorted else sorted[..limit]
  }

  /**
   * The ranked result holds the first `limit` sorted matches (all of them,
   * if there are fewer), is sorted, and takes nothing the input does not hold.
   */
  lemma TopIsSortedPrefix(matches: seq<SearchResult>, limit: nat)
    ensures |Top(matches, limit)| == if |matches| <= limit then |matches| else limit
    ensures SortedByRelevance(Top(matches, limit))
    ensures multiset(Top(matches, limit)) <= multiset(matches)
  {
    var sorted := SortByRelevance(matches);
    assert |sorted| == |matches| by {
      assert |multiset(sorted)| == |multiset(matches)|;
    }
    if |sorted| > limit {
      var kept := sorted[..limit];
      assert Top(matches, limit) == kept;
      SortedPrefix(sorted, limit);
      assert multiset(kept) <= multiset(sorted) by {
        assert sorted == kept + sorted[limit..];
      }
    }
  }

  /** A prefix of a sorted sequence is sorted. */
  lemma SortedPrefix(s: seq<SearchResult>, n: nat)
    requires SortedByRelevance(s) && n <= |s|
    ensures SortedByRelevance(s[..n])
  {
    assert forall i :: 0 <= i < n ==> s[..n][i] == s[i];
  }

  /** In a sorted sequence nothing after a cut scores higher than anything before it. */
  lemma SortedCut(sorted: seq<SearchResult>, n: nat)
    requires SortedByRelevance(sorted) && n <= |sorted|
    ensures forall x, m :: x in sorted[n..] && m in sorted[..n] ==> x.relevance <= m.relevance
  {
    forall x, m | x in sorted[n..] && m in sorted[..n]
      ensures x.relevance <= m.relevance
    {
      var j :| 0 <= j < |sorted[n..]| && sorted[n..][j] == x;
      var i :| 0 <= i < n && sorted[..n][i] == m;
      assert sorted[i] == m && sorted[n + j] == x;
    }
  }

  /** No match the ranking drops scores higher than one it keeps. */
  lemma TopDropsNoBetter(matches: seq<SearchResult>, limit: nat)
    ensures forall x, m :: x in multiset(matches) - multiset(Top(matches, limit)) && m in Top(matches, limit) ==>
              x.relevance <= m.relevance
  {
    var sorted := SortByRelevance(matches);
    var n := if |sorted| <= limit then |sorted| else limit;
    var kept, dropped := sorted[..n], sorted[n..];
    assert Top(matches, limit) == kept;
    assert sorted == kept + dropped;
    assert multiset(matches) - multiset(kept) == multiset(dropped);
    SortedCut(sorted, n);
  }

  /** The kept matches of each relevance are the first ones of that relevance in input order. */
  lemma TopKeepsFirstOfEachRelevance(matches: seq<SearchResult>, limit: nat, k: int)
    ensures WithRelevance(Top(matches, limit), k) <= WithRelevance(matches, k)
  {
    var sorted := SortByRelevance(matches);
    var n := if |sorted| <= limit then |sorted| else limit;
    assert sorted == sorted[..n] + sorted[n..];
    WithRelevanceAppend(sorted[..n], sorted[n..], k);
    SortKeepsTieOrder(matches, k);
  }
}
