# urlmcp content cache and search, in Dafny

This project models the two services that sit under the HTTP layer of the
url-content MCP server:

- **`ContentStore`** (`src/services/contentStore.ts`) is the in-memory cache of
  fetched pages. It is a class around one JavaScript `Map<string, URLContent>`
  with the methods `save`, `get`, `delete`, `list` and `clear`. In the model,
  `Store.ContentStore` is a Dafny class with two fields. `store` is the map.
  `order` is the key order that a JS `Map` keeps: a new key goes to the end,
  and overwriting a key keeps its place. The invariant `Valid` says three
  things: the order lists every key exactly once, it lists nothing else, and
  every record is filed under its own url.
- **`SearchService.search`** (`src/services/search.ts`) is the windowed relevance
  search over one cached page. It works in these steps:
  - It lower-cases the query and splits it at `/\s+/`.
  - It lower-cases the page text and walks a cursor over it.
  - It scores each 200-character window by how many query-word entries occur
    in the window.
  - On a hit it emits the trimmed text from 50 characters before the cursor to
    the end of the window, wrapped in `...`, and moves the cursor 100 on. On a
    miss it moves the cursor 50 on.
  - Finally it sorts the matches stably by relevance, highest first, and keeps
    the first five.

  `Search.SearchService.Search` is that loop, written as a Dafny method. It is
  proved to return exactly `Search.SearchSpec`, a pure reference definition
  built from the functions below.

The records come from `src/types/index.ts`. They are the datatypes
`URLContent`, `URLMetadata` and `SearchResult` in module `Types`, and optional
fields are `Option`.

The modules are these:
- `Types`: the records.
- `Text`: the JavaScript string operations the search uses. These are
  `toLowerCase`, the class `\s`, `split(/\s+/)`, `includes`, `slice` and
  `trim`.
- `Store`: the cache.
- `Ranking`: the stable sort by relevance and the cut to the first entries.
- `Search`: the scan, its reference definition and the service.

Modelling choices that follow the code:
- **Relevance counts entries of the split query, not distinct terms.** The
  `reduce` at
  `src/services/search.ts:21-23` runs over the split array, so a word listed
  twice scores twice. The model follows the code (`Search.RepeatedWordsCountTwice`).
- **Stray whitespace in a query yields an empty word.** `split(/\s+/)` gives an
  empty first or last entry for a query that starts or ends with whitespace,
  and `[""]` for the empty query. The empty string is contained in every
  window, so such a query scores every window
  (`Search.EdgeWhitespaceQueryHasEmptyWord`, `Search.EmptyWordMatchesEverywhere`).
- **Lower-casing is a per-character, length-preserving map.** The window is cut
  from the lower-cased text and the snippet from the original text, both at the
  same positions. The code relies on both texts having the same length.
- `get` returns `this.store.get(url) || null`. A stored record is an object,
  which is always truthy, so `get` is a plain lookup returning `Option`.
- The JS sort is stable since ES2019, but its algorithm is left to the engine.
  The model sorts with an insertion sort, `Ranking.SortByRelevance`.
  `Ranking.SortByRelevanceIsTheStableSort` proves that any stable sort by
  descending relevance gives the same sequence, so the choice of algorithm
  does not matter.

## Model

| member | source | states |
|---|---|---|
| Text.Lower | src/services/search.ts:13-14 | `toLowerCase` keeps the length and maps each character on its own (ASCII A-Z to a-z) |
| Text.LowerIdempotent | src/services/search.ts:13-14 | lower-cased text holds no upper-case letter, and lower-casing it again changes nothing |
| Text.Includes | src/services/search.ts:22 | `includes` as a left-to-right search: it only finds needles no longer than the window, and always finds the empty needle |
| Text.Slice | src/services/search.ts:22 | `slice(from, to)` clamps both bounds to the length: in-range bounds give `s[from..to]`, an end past the length gives the rest, and a start at or past the end gives the empty string |
| Text.IncludesIffOccurs | src/services/search.ts:22 | `includes(word)` holds exactly when the word occurs at some index of the window; the empty word occurs everywhere |
| Text.Trim | src/services/search.ts:29 | `trim()` drops the whitespace at both ends, so the result is never longer than its input |
| Text.TrimSpec | src/services/search.ts:29 | `trim()` returns a contiguous piece of its input that neither starts nor ends with whitespace, and everything it cuts off on either side is whitespace |
| Text.TrimWithin | src/services/search.ts:27-29 | trimming `s[lo..hi]` leaves a piece of `s` between `lo` and `hi` with whitespace-free ends, with only whitespace cut off around it |
| Text.Split | src/services/search.ts:13 | `split(/\s+/)` always returns at least one word |
| Text.SplitFrom | src/services/search.ts:13 | the split of the suffix from a position, one word per whitespace-free run; always at least one word |
| Text.SplitCorrect | src/services/search.ts:13 | the words put back together with the runs of whitespace between them give the input; words hold no whitespace; runs are non-empty; only the first and last word may be empty, so the runs are maximal |
| Text.SplitFromCorrect | src/services/search.ts:13 | the same, for the split of the suffix from any position on |
| Text.SplitFirstWord | src/services/search.ts:13 | the first word is empty exactly when the input is empty or starts with whitespace |
| Text.SplitLastWord | src/services/search.ts:13 | the last word is empty exactly when the input is empty or ends with whitespace |
| Text.SplitFromLastWord | src/services/search.ts:13 | the last word of the split from a position is empty exactly when that suffix is empty or the input ends with whitespace |
| Search.QueryWords | src/services/search.ts:13 | the query lower-cased, then split at runs of whitespace; `Search.EdgeWhitespaceQueryHasEmptyWord` states when it holds the empty word |
| Search.Relevance | src/services/search.ts:21-23 | the `reduce` over the query words scores at most the number of word entries |
| Search.RelevanceCountsEntries | src/services/search.ts:21-23 | the score equals the number of positions of the word array whose word occurs in the window |
| Search.RelevancePositive | src/services/search.ts:21-25 | a window scores (`relevance > 0`) exactly when some query word occurs in it |
| Search.RelevanceAppend | src/services/search.ts:21-23 | the scores of two word lists add up over their concatenation |
| Search.RepeatedWordsCountTwice | src/services/search.ts:21-23 | a query repeated twice scores every window twice as high, because duplicates count |
| Search.EmptyWordScores | src/services/search.ts:13-23 | a word list holding the empty word scores at least 1 on every window |
| Search.WindowRelevance | src/services/search.ts:21-23 | the score of the 200-character window at the cursor of the lower-cased text, at most the number of query words |
| Search.Snippet | src/services/search.ts:27-29 | the context taken at a cursor is at most 250 characters long |
| Search.SnippetInText | src/services/search.ts:27-29 | for a cursor inside the text, the context is a piece of the text between `max(0, pos-50)` and `min(len, pos+200)`, neither starting nor ending with whitespace, with only whitespace of that range cut off |
| Search.MatchAt | src/services/search.ts:27-35 | the pushed match carries the window's score, its `context` is `"..." + content + "..."`, and its `content` is at most 250 characters |
| Search.HitsFrom | src/services/search.ts:18-41 | the cursors at which the loop emits, in loop order: the cursor starts at 0, moves 100 after a scoring window and 50 after one that does not, and stops at the end of the lower-cased text; `Search.HitsAreScored`, `Search.HitsAreSpaced` and `Search.HitsLength` state its properties |
| Search.HitsAreScored | src/services/search.ts:20-25 | every cursor at which the scan emits lies inside the text, and its window scored |
| Search.HitsAreSpaced | src/services/search.ts:25-40 | the emitting cursors increase and are at least 100 apart (the cursor moves 100 after a hit and 50 after a miss) |
| Search.MatchesAt | src/services/search.ts:31-35 | one match is pushed per emitting cursor |
| Search.MatchesAtSnoc | src/services/search.ts:31-35 | emitting at one more cursor appends exactly that cursor's match |
| Search.Scan | src/services/search.ts:14-41 | the matches the loop pushes, in push order; at most ceil(n/50) of them for a text of n characters |
| Search.ScanMatchShape | src/services/search.ts:21-35 | an emitted match scores between 1 and the number of query words, its `context` is `"..." + content + "..."`, and its `content` is at most 250 characters |
| Search.MatchesAtAreScanMatches | src/services/search.ts:20-41 | the matches built at cursors the scan emits at, inside the text and with a scoring window, are all scan matches |
| Search.ScanEmitsScanMatches | src/services/search.ts:20-41 | every match the scan of a text emits is the match taken at some cursor the scan emits at, inside the text and with a scoring window |
| Search.HitsLength | src/services/search.ts:20-41 | the scan emits at most ceil(n/50) matches for a text of n characters |
| Search.HitsLengthWhenEveryWindowScores | src/services/search.ts:20-41 | when the query words hold the empty word, the scan emits exactly ceil(n/100) matches |
| Search.Rank | src/services/search.ts:43-45 | the stable sort by descending relevance, cut to its first five; `Search.RankKeepsBest` states what it keeps |
| Search.RankIsSlice | src/services/search.ts:43-45 | `.slice(0, 5)` of the sorted matches is the ranked result |
| Search.RankKeepsBest | src/services/search.ts:43-45 | ranking keeps min(5, n) matches, taken from its input and sorted; no dropped match scores higher than a kept one; the kept matches of each relevance are the first ones of that relevance in scan order |
| Search.RankedScanMatches | src/services/search.ts:43-45 | ranking only keeps matches it was given, so a ranked scan match keeps its shape |
| Search.SearchSpec | src/services/search.ts:7-46 | the reference result of `search(url, query)`: empty when the store has no record for the url, otherwise the ranked scan of the record's text for the query's words; `Search.SearchIsBoundedAndSorted`, `Search.SearchReturnsScanMatches` and `Search.SearchKeepsBestOfScan` state its properties |
| Search.SearchIsBoundedAndSorted | src/services/search.ts:8-11 | no record for the url, or an empty text, gives the empty result; any result has at most 5 matches, sorted by relevance with the highest first |
| Search.SearchReturnsScanMatches | src/services/search.ts:20-45 | every returned match is the match taken at a cursor the scan of the page text emits at: relevance between 1 and the number of query words, `context` wrapping `content` in `...`, `content` at most 250 characters |
| Search.SearchKeepsBestOfScan | src/services/search.ts:20-45 | the result keeps min(5, emitted) of at most ceil(n/50) emitted matches; no dropped match scores higher than a kept one; ties keep scan order |
| Search.EdgeWhitespaceQueryHasEmptyWord | src/services/search.ts:13 | an empty query, or one that starts or ends with whitespace, splits into a word list holding the empty word |
| Search.EveryWindowScanLength | src/services/search.ts:20-41 | with the empty word among the query words, the scan of an n-character text emits exactly ceil(n/100) matches |
| Search.EmptyWordMatchesEverywhere | src/services/search.ts:13-45 | with the empty word among the query words, a search of an n-character page returns min(5, ceil(n/100)) matches |
| Search.HitsStep | src/services/search.ts:20-40 | one turn of the loop: a scoring window adds the cursor to the hits found so far, and the cursor moves 100 on; otherwise it moves 50 on |
| Search.EmitStep | src/services/search.ts:27-35 | the match the loop pushes, built from the window's score and the trimmed context, is the one the scan emits at that cursor |
| Search.ScanDone | src/services/search.ts:43-45 | once the cursor has left the text, sorting the pushed matches and cutting them to five gives the ranked scan |
| Search.SearchService.constructor | src/services/search.ts:5 | the service keeps the store it is given |
| Search.SearchService.Search | src/services/search.ts:7-46 | `search(url, query)` returns exactly the reference result `SearchSpec`: empty for a missing url, otherwise the ranked scan; at most 5 matches, sorted; it reads the store and changes nothing |
| Ranking.WithRelevanceMembers | src/services/search.ts:43-44 | the matches picked for relevance `k` are exactly the input's matches of relevance `k` |
| Ranking.WithRelevanceAppend | src/services/search.ts:43-44 | picking the matches of one relevance distributes over concatenation |
| Ranking.Insert | src/services/search.ts:43-44 | inserting a match adds exactly that match to the multiset |
| Ranking.InsertBounded | src/services/search.ts:43-44 | inserting keeps an upper bound on the relevances |
| Ranking.SortedCons | src/services/search.ts:43-44 | a match in front of sorted matches that score no higher gives a sorted sequence |
| Ranking.InsertSorted | src/services/search.ts:43-44 | inserting into a sorted sequence keeps it sorted |
| Ranking.InsertWithRelevance | src/services/search.ts:43-44 | an inserted match goes in front of the matches it ties with, and other relevances are untouched |
| Ranking.SortByRelevance | src/services/search.ts:43-44 | the sort returns a permutation of its input in non-increasing order of relevance |
| Ranking.SortKeepsTieOrder | src/services/search.ts:43-44 | the sort is stable: the matches of each relevance keep their input order |
| Ranking.SortedHeadsAgree | src/services/search.ts:43-44 | two sorted sequences with the same matches of every relevance, in the same order, have the same first match |
| Ranking.StableSortIsUnique | src/services/search.ts:43-44 | two such sequences are equal |
| Ranking.SortByRelevanceIsTheStableSort | src/services/search.ts:43-44 | any sort by descending relevance that keeps ties in input order gives the same result as the model's sort |
| Ranking.Top | src/services/search.ts:43-45 | the sorted matches cut to their first `limit` (`.slice(0, limit)`); `Ranking.TopIsSortedPrefix`, `Ranking.TopDropsNoBetter` and `Ranking.TopKeepsFirstOfEachRelevance` state what it keeps |
| Ranking.TopIsSortedPrefix | src/services/search.ts:43-45 | the cut keeps min(limit, n) matches, sorted, and nothing its input does not hold |
| Ranking.SortedPrefix | src/services/search.ts:45 | a prefix of a sorted sequence is sorted |
| Ranking.SortedSuffix | src/services/search.ts:43-44 | a sorted sequence stays sorted without its first match |
| Ranking.SortedCut | src/services/search.ts:45 | in a sorted sequence nothing after a cut scores higher than anything before it |
| Ranking.TopDropsNoBetter | src/services/search.ts:43-45 | no match the cut drops scores higher than one it keeps |
| Ranking.TopKeepsFirstOfEachRelevance | src/services/search.ts:43-45 | the kept matches of each relevance are a prefix of that relevance's matches in input order |
| Store.Without | src/services/contentStore.ts:18-20 | the key order after a delete holds exactly the other keys, stays duplicate-free, and is untouched when the key was absent |
| Store.WithoutKeepsOrder | src/services/contentStore.ts:18-20 | in a duplicate-free key order, dropping the key at index i leaves exactly the keys before it followed by the keys after it |
| Store.DistinctKeysCount | src/services/contentStore.ts:22-24 | a duplicate-free enumeration of a map's keys is as long as the map has entries |
| Store.ContentStore.constructor | src/services/contentStore.ts:6-8 | a new store is empty and valid |
| Store.ContentStore.Save | src/services/contentStore.ts:10-12 | `save` files the record under its url and fully replaces any earlier record; a new url goes to the end of the order, and an existing one keeps its place; every other entry is unchanged |
| Store.ContentStore.Get | src/services/contentStore.ts:14-16 | `get` finds a record exactly when the url is a key, returns the record filed under it, and changes nothing |
| Store.ContentStore.Delete | src/services/contentStore.ts:18-20 | `delete` answers true exactly when the url was a key; afterwards the url is absent, every other entry is unchanged, and the order drops the url and keeps the other keys in their order |
| Store.ContentStore.List | src/services/contentStore.ts:22-24 | `list` returns every stored record exactly once, in insertion order of the keys; its length is the number of keys; it changes nothing |
| Store.ContentStore.Clear | src/services/contentStore.ts:26-28 | `clear` leaves the store empty |
| Store.SaveThenGet | src/services/contentStore.ts:10-16 | after `save(c)`, `get(c.url)` returns `c`, and no other entry changes |
| Store.SaveTwiceKeepsLast | src/services/contentStore.ts:10-16 | after two saves for one url, `get` returns the second record, the store equals the old store with only that url overwritten, and the key order grows by one only if the url was new |
| Store.DeleteTwice | src/services/contentStore.ts:14-20 | the first delete answers whether the url was present, a second delete of it answers false, and `get` then misses |
| Store.ClearThenRead | src/services/contentStore.ts:14-16 | after `clear`, `list` is empty and `get` misses for every url |

## Left out

- `async`/`Promise`: the store and the search never wait on real I/O, so every method is synchronous. There is no concurrency to model.
- Text.Lower: models only the ASCII letters A-Z. Full Unicode `toLowerCase` can change the length of a string (`"İ"` becomes two code units), and the code's use of one cursor for both texts would then drift. The model assumes it does not.
- Text.IsWhitespace: the class `\s` and the set `trim` removes are the ECMAScript WhiteSpace and LineTerminator characters of the Basic Multilingual Plane.
- Positions in text outside the Basic Multilingual Plane. A Dafny `string` is a sequence of Unicode scalar values, while JavaScript strings index UTF-16 code units, where a character above U+FFFF takes two. The model covers texts and queries made of BMP characters, which have no surrogate pairs, so one `char` is one code unit. For a page holding astral characters, such as emoji, the model's 200-character windows, its 50- and 100-character steps and its snippet bounds fall at different positions than in `src/services/search.ts:20-29`. A `slice` that cuts a surrogate pair in half cannot be represented at all.
- `timestamp` and `relevance` are JavaScript numbers. The model uses unbounded integers, since nothing here does floating-point arithmetic on them.
- The engine's own sorting algorithm is not modelled. Any stable sort gives the same result (`Ranking.SortByRelevanceIsTheStableSort`).
- `src/services/urlProcessor.ts` is not part of this model. It does the network fetching, HTML parsing, clock reads and url validation. A `URLContent` record is taken as given input.
- The HTTP controllers and server wiring (`src/server/`) and `MCPResponse` (`src/types/index.ts:22-26`) are not part of this model. They are request and response glue over the store and the search.
