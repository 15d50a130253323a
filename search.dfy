/**
 * The windowed relevance search over one cached page. The pure functions
 * below say what a search returns; `SearchService.Search` is the loop that
 * computes it and is proved to return exactly that.
 */
module Search {
  import opened Types
  import opened Text
  import opened Ranking
  import Store

  /** Characters of lower-cased text scored per scan step. */
  const WindowSize: nat := 200
  /** Characters of context kept before a scan position. */
  const ContextBefore: nat := 50
  /** Cursor advance after a window that scored. */
  const HitStep: nat := 100
  /** Cursor advance after a window that did not. */
  const MissStep: nat := 50
  /** How many ranked matches a search returns at most. */
  const MaxResults: nat := 5

  function Max(a: int, b: int): int { if a >= b then a else b }

  function Min(a: int, b: int): int { if a <= b then a else b }

  // ---------------------------------------------------------------------
  // Scoring one window
  // ---------------------------------------------------------------------

  /**
   * The `reduce` over the query words: one point for every entry of
   * `words` that occurs in the window, folded from the left. Entries are
   * counted, not distinct words.
   */
  function Relevance(words: seq<string>, window: string): (score: nat)
    ensures score <= |words|
    decreases |words|
  {
    if |words| == 0 then 0
    else Relevance(words[..|words| - 1], window) + (if Includes(window, words[|words| - 1]) then 1 else 0)
  }

  /** The positions of `words` whose word occurs in the window. */
  ghost function MatchingPositions(words: seq<string>, window: string): set<int> {
    set i | 0 <= i < |words| && Includes(window, words[i])
  }

  /** The score is the number of positions of `words` whose word occurs in the window. */
  lemma {:induction false} RelevanceCountsEntries(words: seq<string>, window: string)
    ensures Relevance(words, window) == |MatchingPositions(words, window)|
    decreases |words|
  {
    if |words| == 0 {
      assert MatchingPositions(words, window) == {};
    } else {
      var n := |words| - 1;
      var front := words[..n];
      RelevanceCountsEntries(front, window);
      var before := MatchingPositions(front, window);
      var all := MatchingPositions(words, window);
      if Includes(window, words[n]) {
        assert all == before + {n};
        assert n !in before;
      } else {
        assert all == before;
      }
    }
  }

  /** A window scores exactly when at least one entry of `words` occurs in it. */
  lemma {:induction false} RelevancePositive(words: seq<string>, window: string)
    ensures Relevance(words, window) > 0 <==> exists i :: 0 <= i < |words| && Includes(window, words[i])
    decreases |words|
  {
    if |words| > 0 {
      var n := |words| - 1;
      RelevancePositive(words[..n], window);
      if i :| 0 <= i < n && Includes(window, words[..n][i]) {
        assert words[i] == words[..n][i];
      }
      if i :| 0 <= i < |words| && Includes(window, words[i]) {
        if i < n {
          assert words[..n][i] == words[i];
        }
      }
    }
  }

  /** Scores add up over concatenated word lists. */
  lemma {:induction false} RelevanceAppend(a: seq<string>, b: seq<string>, window: string)
    ensures Relevance(a + b, window) == Relevance(a, window) + Relevance(b, window)
    decreases |b|
  {
    if |b| > 0 {
      var n := |b| - 1;
      RelevanceAppend(a, b[..n], window);
      assert (a + b)[..|a + b| - 1] == a + b[..n];
      assert (a + b)[|a + b| - 1] == b[n];
    } else {
      assert a + b == a;
    }
  }

  /** A word listed twice scores twice: repeating the query doubles every score. */
  lemma RepeatedWordsCountTwice(words: seq<string>, window: string)
    ensures Relevance(words + words, window) == 2 * Relevance(words, window)
  {
    RelevanceAppend(words, words, window);
  }

  /** The empty word occurs in every window, so a word list holding it scores everywhere. */
  lemma EmptyWordScores(words: seq<string>, window: string)
    requires [] in words
    ensures Relevance(words, window) >= 1
  {
    var i :| 0 <= i < |words| && words[i] == [];
    assert window[..0] == [];
    assert Includes(window, words[i]);
    RelevancePositive(words, window);
  }

  // ---------------------------------------------------------------------
  // The scan
  // ---------------------------------------------------------------------

  /**
   * The context for scan position `pos`: the original text from 50
   * characters before `pos` to the end of the window, trimmed.
   */
  function Snippet(text: string, pos: nat): (snippet: string)
    ensures |snippet| <= ContextBefore + WindowSize
  {
    Trim(Slice(text, Max(0, pos - ContextBefore), Min(|text|, pos + WindowSize)))
  }

  /**
   * The snippet for a position inside the text is a piece of the text lying
   * within 50 characters before the position and the end of its window,
   * neither starting nor ending with whitespace, and only whitespace of the
   * window is cut off around it.
   */
  lemma SnippetInText(text: string, pos: nat)
    requires pos < |text|
    ensures var snippet, lo, hi := Snippet(text, pos), Max(0, pos - ContextBefore), Min(|text|, pos + WindowSize);
            && (snippet == [] || (!IsWhitespace(snippet[0]) && !IsWhitespace(snippet[|snippet| - 1])))
            && exists i :: lo <= i && i + |snippet| <= hi && text[i..i + |snippet|] == snippet
                           && AllWhitespace(text[lo..i]) && AllWhitespace(text[i + |snippet|..hi])
  {
    var lo, hi := Max(0, pos - ContextBefore), Min(|text|, pos + WindowSize);
    assert Snippet(text, pos) == Trim(text[lo..hi]);
    TrimWithin(text, lo, hi);
  }

  /** The match emitted at scan position `pos` with the given score. */
  function MatchAt(text: string, pos: nat, relevance: int): (m: SearchResult)
    ensures m.relevance == relevance
    ensures m.context == "..." + m.content + "..."
    ensures |m.content| <= ContextBefore + WindowSize
  {
    var snippet := Snippet(text, pos);
    SearchResult(snippet, relevance, "..." + snippet + "...")
  }

  /** The score of the window at scan position `pos` of the lower-cased text. */
  function WindowRelevance(haystack: string, words: seq<string>, pos: nat): (score: nat)
    ensures score <= |words|
  {
    Relevance(words, Slice(haystack, pos, pos + WindowSize))
  }

  /**
   * The cursors, from `pos` on, at which the scan emits a match, in scan
   * order: while the cursor is inside the lower-cased text, a window that
   * scores is a hit and moves the cursor 100 on, one that does not moves it
   * 50 on.
   */
  function HitsFrom(haystack: string, words: seq<string>, pos: nat): seq<nat>
    decreases |haystack| - pos
  {
    if pos >= |haystack| then []
    else if WindowRelevance(haystack, words, pos) > 0 then [pos] + HitsFrom(haystack, words, pos + HitStep)
    else HitsFrom(haystack, words, pos + MissStep)
  }

  /** Hits lie inside the text from `pos` on, and their windows scored. */
  lemma {:induction false} HitsAreScored(haystack: string, words: seq<string>, pos: nat)
    ensures forall h :: h in HitsFrom(haystack, words, pos) ==>
              pos <= h < |haystack| && WindowRelevance(haystack, words, h) > 0
    decreases |haystack| - pos
  {
    if pos < |haystack| {
      if WindowRelevance(haystack, words, pos) > 0 {
        HitsAreScored(haystack, words, pos + HitStep);
      } else {
        HitsAreScored(haystack, words, pos + MissStep);
      }
    }
  }

  /** Cursors all from `lo` on, in increasing order and at least 100 apart. */
  ghost predicate Spaced(hits: seq<nat>, lo: nat) {
    && (forall i :: 0 <= i < |hits| ==> lo <= hits[i])
    && (forall i :: 0 <= i < |hits| - 1 ==> hits[i] + HitStep <= hits[i + 1])
  }

  /** Hits come in increasing order, at least 100 apart, all from `pos` on. */
  lemma {:induction false} HitsAreSpaced(haystack: string, words: seq<string>, pos: nat)
    ensures Spaced(HitsFrom(haystack, words, pos), pos)
    decreases |haystack| - pos
  {
    if pos < |haystack| {
      if WindowRelevance(haystack, words, pos) > 0 {
        var later := HitsFrom(haystack, words, pos + HitStep);
        HitsAreSpaced(haystack, words, pos + HitStep);
        assert HitsFrom(haystack, words, pos) == [pos] + later;
        SpacedCons(pos, later);
      } else {
        var later := HitsFrom(haystack, words, pos + MissStep);
        HitsAreSpaced(haystack, words, pos + MissStep);
        assert HitsFrom(haystack, words, pos) == later;
        assert Spaced(later, pos);
      }
    }
  }

  /** A cursor 100 or more before spaced cursors keeps them spaced. */
  lemma SpacedCons(pos: nat, later: seq<nat>)
    requires Spaced(later, pos + HitStep)
    ensures Spaced([pos] + later, pos)
  {
    var hits := [pos] + later;
    forall i | 0 < i < |hits|
      ensures hits[i] == later[i - 1]
    {
    }
  }

  /** The matches emitted at the given cursors, one per cursor, in their order. */
  function MatchesAt(text: string, haystack: string, words: seq<string>, hits: seq<nat>): (matches: seq<SearchResult>)
    ensures |matches| == |hits|
  {
    if hits == [] then []
    else
      var last := hits[|hits| - 1];
      MatchesAt(text, haystack, words, hits[..|hits| - 1]) + [MatchAt(text, last, WindowRelevance(haystack, words, last))]
  }

  /** A cursor appended to the hits appends its match to the matches. */
  lemma MatchesAtSnoc(text: string, haystack: string, words: seq<string>, hits: seq<nat>, pos: nat)
    ensures MatchesAt(text, haystack, words, hits + [pos]) ==
              MatchesAt(text, haystack, words, hits) + [MatchAt(text, pos, WindowRelevance(haystack, words, pos))]
  {
    assert (hits + [pos])[..|hits|] == hits;
  }

  /**
   * `m` is the match taken at cursor `p`: a cursor the scan of the
   * lower-cased text `haystack` emits at, inside `text`, whose window scored.
   */
  ghost predicate EmittedAt(text: string, haystack: string, words: seq<string>, p: nat, m: SearchResult) {
    p in HitsFrom(haystack, words, 0) && p < |text| && WindowRelevance(haystack, words, p) > 0
    && m == MatchAt(text, p, WindowRelevance(haystack, words, p))
  }

  /** A match the scan of `text` can emit: the one taken at some cursor the scan emits at. */
  ghost predicate IsScanMatch(text: string, haystack: string, words: seq<string>, m: SearchResult) {
    exists p: nat :: EmittedAt(text, haystack, words, p, m)
  }

  /**
   * A scan match scores between 1 and the number of query words, wraps its
   * snippet in ellipses, and its snippet is at most 250 characters long.
   */
  lemma ScanMatchShape(text: string, haystack: string, words: seq<string>, m: SearchResult)
    requires IsScanMatch(text, haystack, words, m)
    ensures 1 <= m.relevance <= |words|
    ensures m.context == "..." + m.content + "..."
    ensures |m.content| <= ContextBefore + WindowSize
  {
    var p: nat :| EmittedAt(text, haystack, words, p, m);
  }

  /** Everything emitted at scan cursors inside the text whose windows scored is a scan match. */
  lemma {:induction false} MatchesAtAreScanMatches(text: string, haystack: string, words: seq<string>, hits: seq<nat>)
    requires forall i :: 0 <= i < |hits| ==>
               hits[i] in HitsFrom(haystack, words, 0) && hits[i] < |text| && WindowRelevance(haystack, words, hits[i]) > 0
    ensures forall m :: m in MatchesAt(text, haystack, words, hits) ==> IsScanMatch(text, haystack, words, m)
  {
    if hits != [] {
      var n := |hits| - 1;
      var front, last := hits[..n], hits[n];
      var x := MatchAt(text, last, WindowRelevance(haystack, words, last));
      assert MatchesAt(text, haystack, words, hits) == MatchesAt(text, haystack, words, front) + [x];
      MatchesAtAreScanMatches(text, haystack, words, front);
      assert EmittedAt(text, haystack, words, last, x);
    }
  }

  /** Everything the scan of `text` emits is a scan match. */
  lemma ScanEmitsScanMatches(text: string, haystack: string, words: seq<string>)
    requires |haystack| == |text|
    ensures forall m :: m in MatchesAt(text, haystack, words, HitsFrom(haystack, words, 0)) ==>
              IsScanMatch(text, haystack, words, m)
  {
    var hits := HitsFrom(haystack, words, 0);
    HitsAreScored(haystack, words, 0);
    assert forall i :: 0 <= i < |hits| ==> hits[i] in hits;
    MatchesAtAreScanMatches(text, haystack, words, hits);
  }

  /** At most one hit per 50 characters left to scan: ceil(n / 50) for n characters. */
  lemma {:induction false} HitsLength(haystack: string, words: seq<string>, pos: nat)
    ensures |HitsFrom(haystack, words, pos)| <=
              if pos < |haystack| then (|haystack| - pos + MissStep - 1) / MissStep else 0
    decreases |haystack| - pos
  {
    if pos < |haystack| {
      if WindowRelevance(haystack, words, pos) > 0 {
        HitsLength(haystack, words, pos + HitStep);
      } else {
        HitsLength(haystack, words, pos + MissStep);
      }
    }
  }

  /** When every window scores, the cursor always moves 100 on: exactly ceil(n / 100) hits for n characters. */
  lemma {:induction false} HitsLengthWhenEveryWindowScores(haystack: string, words: seq<string>, pos: nat)
    requires [] in words
    ensures |HitsFrom(haystack, words, pos)| ==
              if pos < |haystack| then (|haystack| - pos + HitStep - 1) / HitStep else 0
    decreases |haystack| - pos
  {
    if pos < |haystack| {
      EmptyWordScores(words, Slice(haystack, pos, pos + WindowSize));
      HitsLengthWhenEveryWindowScores(haystack, words, pos + HitStep);
    }
  }

  /** The ranked result: the matches sorted by relevance, highest first and stably, cut to the first five. */
  function Rank(matches: seq<SearchResult>): seq<SearchResult> {
    Top(matches, MaxResults)
  }

  /** `.slice(0, 5)` of the sorted matches is the ranked result. */
  lemma RankIsSlice(matches: seq<SearchResult>)
    ensures Slice(SortByRelevance(matches), 0, MaxResults) == Rank(matches)
  {
  }

  /**
   * Ranking keeps the five (or all, if fewer) best matches: the kept ones
   * come from the input, are sorted, no dropped match scores higher than a
   * kept one, and the kept matches of each relevance are the first ones of
   * that relevance in scan order.
   */
  lemma RankKeepsBest(matches: seq<SearchResult>)
    ensures |Rank(matches)| == Min(|matches|, MaxResults)
    ensures SortedByRelevance(Rank(matches))
    ensures multiset(Rank(matches)) <= multiset(matches)
    ensures forall x, m :: x in multiset(matches) - multiset(Rank(matches)) && m in Rank(matches) ==>
              x.relevance <= m.relevance
    ensures forall k :: WithRelevance(Rank(matches), k) <= WithRelevance(matches, k)
  {
    TopIsSortedPrefix(matches, MaxResults);
    TopDropsNoBetter(matches, MaxResults);
    forall k
      ensures WithRelevance(Rank(matches), k) <= WithRelevance(matches, k)
    {
      TopKeepsFirstOfEachRelevance(matches, MaxResults, k);
    }
  }

  // ---------------------------------------------------------------------
  // The whole search
  // ---------------------------------------------------------------------

  /** The words of a query: lower-cased, then split at runs of whitespace. */
  function QueryWords(query: string): seq<string> {
    Split(Lower(query))
  }

  /** The matches the scan of a page's text emits, in scan order. */
  function Scan(text: string, words: seq<string>): (emitted: seq<SearchResult>)
    ensures |emitted| <= (|text| + MissStep - 1) / MissStep
  {
    var haystack := Lower(text);
    HitsLength(haystack, words, 0);
    MatchesAt(text, haystack, words, HitsFrom(haystack, words, 0))
  }

  /**
   * What `search(url, query)` returns for a store holding `entries`: nothing
   * when there is no record for `url`, otherwise the ranked scan of its text.
   */
  function SearchSpec(entries: map<string, URLContent>, url: string, query: string): seq<SearchResult> {
    if url !in entries then []
    else Rank(Scan(entries[url].content, QueryWords(query)))
  }

  /** Ranking keeps only matches it was given: ranked scan matches are scan matches, with their shape. */
  lemma RankedScanMatches(emitted: seq<SearchResult>, text: string, haystack: string, words: seq<string>)
    requires forall m :: m in emitted ==> IsScanMatch(text, haystack, words, m)
    ensures forall m :: m in Rank(emitted) ==>
              && IsScanMatch(text, haystack, words, m)
              && 1 <= m.relevance <= |words|
              && m.context == "..." + m.content + "..."
              && |m.content| <= ContextBefore + WindowSize
  {
    TopIsSortedPrefix(emitted, MaxResults);
    forall m | m in Rank(emitted)
      ensures IsScanMatch(text, haystack, words, m)
      ensures 1 <= m.relevance <= |words|
      ensures m.context == "..." + m.content + "..."
      ensures |m.content| <= ContextBefore + WindowSize
    {
      assert m in multiset(Rank(emitted));
      assert m in multiset(emitted);
      ScanMatchShape(text, haystack, words, m);
    }
  }

  /**
   * A search of a missing url or of an empty text finds nothing; otherwise it
   * returns at most five matches, sorted by relevance.
   */
  lemma SearchIsBoundedAndSorted(entries: map<string, URLContent>, url: string, query: string)
    ensures url !in entries ==> SearchSpec(entries, url, query) == []
    ensures url in entries && entries[url].content == [] ==> SearchSpec(entries, url, query) == []
    ensures |SearchSpec(entries, url, query)| <= MaxResults
    ensures SortedByRelevance(SearchSpec(entries, url, query))
  {
    if url in entries {
      var text := entries[url].content;
      var emitted := Scan(text, QueryWords(query));
      assert text == [] ==> emitted == [];
      TopIsSortedPrefix(emitted, MaxResults);
    }
  }

  /**
   * Every match a search returns is a scan match of the page's text: it
   * scores between 1 and the number of query words, its context is its
   * snippet wrapped in "...", and the snippet is the trimmed text around a
   * scan cursor inside the text, at most 250 characters long.
   */
  lemma SearchReturnsScanMatches(entries: map<string, URLContent>, url: string, query: string)
    requires url in entries
    ensures forall m :: m in SearchSpec(entries, url, query) ==>
              && IsScanMatch(entries[url].content, Lower(entries[url].content), QueryWords(query), m)
              && 1 <= m.relevance <= |QueryWords(query)|
              && m.context == "..." + m.content + "..."
              && |m.content| <= ContextBefore + WindowSize
  {
    var text, words := entries[url].content, QueryWords(query);
    ScanEmitsScanMatches(text, Lower(text), words);
    RankedScanMatches(Scan(text, words), text, Lower(text), words);
  }

  /**
   * The five kept matches are the best of everything the scan emitted, and
   * the scan emits at most ceil(n / 50) matches for a text of n characters.
   */
  lemma SearchKeepsBestOfScan(entries: map<string, URLContent>, url: string, query: string)
    requires url in entries
    ensures var emitted := Scan(entries[url].content, QueryWords(query));
            var r := SearchSpec(entries, url, query);
            && |emitted| <= (|entries[url].content| + MissStep - 1) / MissStep
            && |r| == Min(|emitted|, MaxResults)
            && multiset(r) <= multiset(emitted)
            && (forall x, m :: x in multiset(emitted) - multiset(r) && m in r ==> x.relevance <= m.relevance)
            && (forall k :: WithRelevance(r, k) <= WithRelevance(emitted, k))
  {
    var text := entries[url].content;
    RankKeepsBest(Scan(text, QueryWords(query)));
  }

  /**
   * A query that is empty, or starts or ends with whitespace, splits into a
   * list holding the empty word.
   */
  lemma EdgeWhitespaceQueryHasEmptyWord(query: string)
    requires query == [] || IsWhitespace(query[0]) || IsWhitespace(query[|query| - 1])
    ensures [] in QueryWords(query)
  {
    var lower := Lower(query);
    var words := Split(lower);
    SplitFirstWord(lower);
    SplitLastWord(lower);
    assert words[0] == [] || words[|words| - 1] == [];
  }

  /**
   * The empty word occurs in every window: when the query words hold it,
   * every window of a non-empty text scores, and the search returns
   * min(5, ceil(n / 100)) matches for a text of n characters.
   */
  lemma EmptyWordMatchesEverywhere(entries: map<string, URLContent>, url: string, query: string)
    requires url in entries
    requires [] in QueryWords(query)
    ensures var n := |entries[url].content|;
            |SearchSpec(entries, url, query)| == Min(MaxResults, (n + HitStep - 1) / HitStep)
  {
    var text, words := entries[url].content, QueryWords(query);
    EveryWindowScanLength(text, words);
    RankKeepsBest(Scan(text, words));
  }

  /** With the empty word among the words, the scan of n characters emits exactly ceil(n / 100) matches. */
  lemma EveryWindowScanLength(text: string, words: seq<string>)
    requires [] in words
    ensures |Scan(text, words)| == (|text| + HitStep - 1) / HitStep
  {
    HitsLengthWhenEveryWindowScores(Lower(text), words, 0);
  }

  /** Concatenation of cursor lists is associative. */
  lemma AppendAssoc(a: seq<nat>, b: seq<nat>, c: seq<nat>)
    ensures (a + b) + c == a + (b + c)
  {
  }

  /**
   * One turn of the scan loop over the cursors: with the hits before `pos`
   * found, a scoring window adds `pos` to them, one that does not adds
   * nothing, and the cursor moves 100 or 50 on.
   */
  lemma HitsStep(haystack: string, words: seq<string>, pos: nat, done: seq<nat>)
    requires pos < |haystack|
    requires done + HitsFrom(haystack, words, pos) == HitsFrom(haystack, words, 0)
    ensures WindowRelevance(haystack, words, pos) > 0 ==>
              (done + [pos]) + HitsFrom(haystack, words, pos + HitStep) == HitsFrom(haystack, words, 0)
    ensures WindowRelevance(haystack, words, pos) == 0 ==>
              done + HitsFrom(haystack, words, pos + MissStep) == HitsFrom(haystack, words, 0)
  {
    if WindowRelevance(haystack, words, pos) > 0 {
      var later := HitsFrom(haystack, words, pos + HitStep);
      assert HitsFrom(haystack, words, pos) == [pos] + later;
      AppendAssoc(done, [pos], later);
    } else {
      assert HitsFrom(haystack, words, pos) == HitsFrom(haystack, words, pos + MissStep);
    }
  }

  /**
   * A hit of the scan loop: the match built from the window's score and the
   * trimmed context is the one the scan emits at `pos`, appended to those
   * emitted before.
   */
  lemma EmitStep(text: string, haystack: string, words: seq<string>, done: seq<nat>, pos: nat,
                 relevance: nat, context: string)
    requires relevance == Relevance(words, Slice(haystack, pos, pos + WindowSize))
    requires context == Trim(Slice(text, Max(0, pos - ContextBefore), Min(|text|, pos + WindowSize)))
    ensures MatchesAt(text, haystack, words, done + [pos]) ==
              MatchesAt(text, haystack, words, done) + [SearchResult(context, relevance, "..." + context + "...")]
  {
    MatchesAtSnoc(text, haystack, words, done, pos);
  }

  /**
   * When the cursor has left the text, the cursors passed are all the hits,
   * the matches built are the scan's, and cutting their sorted order to five
   * is the ranked scan.
   */
  lemma ScanDone(text: string, words: seq<string>, pos: nat, done: seq<nat>, matches: seq<SearchResult>)
    requires pos >= |Lower(text)|
    requires done + HitsFrom(Lower(text), words, pos) == HitsFrom(Lower(text), words, 0)
    requires matches == MatchesAt(text, Lower(text), words, done)
    ensures Slice(SortByRelevance(matches), 0, MaxResults) == Rank(Scan(text, words))
  {
    assert done == HitsFrom(Lower(text), words, 0);
    RankIsSlice(matches);
  }

  // ---------------------------------------------------------------------
  // The service
  // ---------------------------------------------------------------------

  class SearchService {
    const contentStore: Store.ContentStore

    constructor (contentStore: Store.ContentStore)
      ensures this.contentStore == contentStore
    {
      this.contentStore := contentStore;
    }

    /**
     * `search(url, query)`: looks the page up, scans its lower-cased text in
     * windows, and returns the best five matches by relevance. It reads the
     * store and changes nothing.
     */
    method Search(url: string, query: string) returns (results: seq<SearchResult>)
      requires contentStore.Valid()
      ensures results == SearchSpec(contentStore.store, url, query)
      ensures url !in contentStore.store ==> results == []
      ensures |results| <= MaxResults && SortedByRelevance(results)
    {
      SearchIsBoundedAndSorted(contentStore.store, url, query);
      var content := contentStore.Get(url);
      if content.None? {
        return [];
      }
      var text := content.value.content;
      var words := Split(Lower(query));
      var contentWords := Lower(text);
      var matches: seq<SearchResult> := [];
      var pos: nat := 0;
      ghost var done: seq<nat> := [];
      while pos < |contentWords|
        invariant done + HitsFrom(contentWords, words, pos) == HitsFrom(contentWords, words, 0)
        invariant matches == MatchesAt(text, contentWords, words, done)
        decreases |contentWords| - pos
      {
        var relevance := Relevance(words, Slice(contentWords, pos, pos + WindowSize));
        HitsStep(contentWords, words, pos, done);
        if relevance > 0 {
          var start := Max(0, pos - ContextBefore);
          var end := Min(|text|, pos + WindowSize);
          var context := Trim(Slice(text, start, end));
          EmitStep(text, contentWords, words, done, pos, relevance, context);
          matches := matches + [SearchResult(context, relevance, "..." + context + "...")];
          done := done + [pos];
          pos := pos + HitStep;
        } else {
          pos := pos + MissStep;
        }
      }
      ScanDone(text, words, pos, done, matches);
      results := Slice(SortByRelevance(matches), 0, MaxResults);
    }
  }
}
