/**
 * The JavaScript string primitives the search is built from: case mapping,
 * the regular-expression class `\s`, `split(/\s+/)`, `includes`, `slice`
 * and `trim`. Strings are sequences of UTF-16 code units, here `seq<char>`.
 */
module Text {

  /**
   * The characters of the ECMAScript class `\s` (WhiteSpace and
   * LineTerminator), which is also the set `String.prototype.trim` removes.
   */
  predicate IsWhitespace(c: char) {
    || c == '\t' || c == '\n' || c == '\U{000B}' || c == '\U{000C}' || c == '\r' || c == ' '
    || c == '\U{00A0}' || c == '\U{1680}' || ('\U{2000}' <= c <= '\U{200A}')
    || c == '\U{2028}' || c == '\U{2029}' || c == '\U{202F}' || c == '\U{205F}'
    || c == '\U{3000}' || c == '\U{FEFF}'
  }

  ghost predicate AllWhitespace(s: string) {
    forall i :: 0 <= i < |s| ==> IsWhitespace(s[i])
  }

  ghost predicate NoWhitespace(s: string) {
    forall i :: 0 <= i < |s| ==> !IsWhitespace(s[i])
  }

  // ---------------------------------------------------------------------
  // toLowerCase
  // ---------------------------------------------------------------------

  /**
   * Lower-cases one code unit. Only the ASCII letters A-Z change; the full
   * Unicode case mapping of `toLowerCase` is not modelled.
   */
  function LowerChar(c: char): (l: char)
    ensures !('A' <= l <= 'Z')
    ensures l != c ==> 'A' <= c <= 'Z'
  {
    if 'A' <= c <= 'Z' then (c as int + 32) as char else c
  }

  /** `toLowerCase`, as a per-character and therefore length-preserving map. */
  function Lower(s: string): (r: string)
    ensures |r| == |s|
    ensures forall i :: 0 <= i < |s| ==> r[i] == LowerChar(s[i])
  {
    seq(|s|, i requires 0 <= i < |s| => LowerChar(s[i]))
  }

  /** Lower-cased text has no upper-case ASCII letter left, so lower-casing it again changes nothing. */
  lemma LowerIdempotent(s: string)
    ensures forall i :: 0 <= i < |s| ==> !('A' <= Lower(s)[i] <= 'Z')
    ensures Lower(Lower(s)) == Lower(s)
  {
    var l := Lower(s);
    forall i | 0 <= i < |s|
      ensures Lower(l)[i] == l[i]
    {
      assert !('A' <= l[i] <= 'Z');
    }
  }

  // ---------------------------------------------------------------------
  // slice and includes
  // ---------------------------------------------------------------------

  /** `s.slice(from, to)` on a string or an array, for non-negative bounds: both are clamped to the length. */
  function Slice<T>(s: seq<T>, from: nat, to: nat): (r: seq<T>)
    ensures from <= to <= |s| ==> r == s[from..to]
    ensures from <= |s| <= to ==> r == s[from..]
    ensures to <= from || |s| <= from ==> r == []
  {
    var a := if from < |s| then from else |s|;
    var b := if to < |s| then to else |s|;
    if a <= b then s[a..b] else []
  }

  /** `haystack.includes(needle)`, as a left-to-right search. */
  predicate Includes(haystack: string, needle: string)
    ensures Includes(haystack, needle) ==> |needle| <= |haystack|
    ensures needle == [] ==> Includes(haystack, needle)
    decreases |haystack|
  {
    if |needle| > |haystack| then false
    else if haystack[..|needle|] == needle then true
    else Includes(haystack[1..], needle)
  }

  /** `needle` occurs in `haystack` starting at index `i`. */
  ghost predicate OccursAt(haystack: string, needle: string, i: int) {
    0 <= i && i + |needle| <= |haystack| && haystack[i..i + |needle|] == needle
  }

  /** The search finds exactly the needles that occur somewhere; the empty needle occurs everywhere. */
  lemma {:induction false} IncludesIffOccurs(haystack: string, needle: string)
    ensures Includes(haystack, needle) <==> exists i :: OccursAt(haystack, needle, i)
    decreases |haystack|
  {
    if |needle| > |haystack| {
    } else if haystack[..|needle|] == needle {
      assert OccursAt(haystack, needle, 0);
    } else {
      var tail := haystack[1..];
      IncludesIffOccurs(tail, needle);
      if i :| OccursAt(tail, needle, i) {
        assert haystack[i + 1..i + 1 + |needle|] == tail[i..i + |needle|];
        assert OccursAt(haystack, needle, i + 1);
      }
      if i :| OccursAt(haystack, needle, i) {
        assert i != 0;
        assert tail[i - 1..i - 1 + |needle|] == haystack[i..i + |needle|];
        assert OccursAt(tail, needle, i - 1);
      }
    }
  }

  // ---------------------------------------------------------------------
  // trim
  // ---------------------------------------------------------------------

  /** The first index from `i` on that is not whitespace, or the length if there is none. */
  function SkipWhitespace(s: string, i: nat): (r: nat)
    requires i <= |s|
    ensures i <= r <= |s|
    ensures AllWhitespace(s[i..r])
    ensures r < |s| ==> !IsWhitespace(s[r])
    decreases |s| - i
  {
    if i == |s| || !IsWhitespace(s[i]) then i
    else
      var r := SkipWhitespace(s, i + 1);
      assert s[i..r] == [s[i]] + s[i + 1..r];
      r
  }

  /**
   * Going back from `j`, no further than `lo`: the end of what is left once
   * the whitespace just before `j` is dropped.
   */
  function SkipWhitespaceBack(s: string, lo: nat, j: nat): (r: nat)
    requires lo <= j <= |s|
    ensures lo <= r <= j
    ensures AllWhitespace(s[r..j])
    ensures lo < r ==> !IsWhitespace(s[r - 1])
    decreases j - lo
  {
    if j == lo || !IsWhitespace(s[j - 1]) then j
    else
      var r := SkipWhitespaceBack(s, lo, j - 1);
      assert s[r..j] == s[r..j - 1] + [s[j - 1]];
      r
  }

  /** `s.trim()`: drops whitespace at both ends. */
  function Trim(s: string): (r: string)
    ensures |r| <= |s|
  {
    var start := SkipWhitespace(s, 0);
    s[start..SkipWhitespaceBack(s, start, |s|)]
  }

  /**
   * What `trim` promises: the result is a contiguous piece of `s` that
   * neither starts nor ends with whitespace, and everything cut off on
   * either side is whitespace.
   */
  lemma TrimSpec(s: string)
    ensures var r := Trim(s);
            && (r == [] || (!IsWhitespace(r[0]) && !IsWhitespace(r[|r| - 1])))
            && exists i :: 0 <= i <= |s| - |r| && s[i..i + |r|] == r
                           && AllWhitespace(s[..i]) && AllWhitespace(s[i + |r|..])
  {
    var i := SkipWhitespace(s, 0);
    var j := SkipWhitespaceBack(s, i, |s|);
    var r := s[i..j];
    assert Trim(s) == r;
    assert s[..i] == s[0..i] && s[j..] == s[j..|s|];
    if r != [] {
      assert r[0] == s[i] && r[|r| - 1] == s[j - 1];
    }
    assert s[i..i + |r|] == r;
  }

  /** A slice of a slice is a slice of the whole. */
  lemma SliceOfSlice(s: string, lo: nat, hi: nat, a: nat, b: nat)
    requires lo <= hi <= |s| && a <= b <= hi - lo
    ensures s[lo..hi][a..b] == s[lo + a..lo + b]
  {
    assert forall k :: 0 <= k < b - a ==> s[lo..hi][a..b][k] == s[lo + a + k];
  }

  /**
   * Trimming the piece `s[lo..hi]` leaves a piece of `s` inside it that
   * neither starts nor ends with whitespace, with only whitespace cut off on
   * either side.
   */
  lemma TrimWithin(s: string, lo: nat, hi: nat)
    requires lo <= hi <= |s|
    ensures var r := Trim(s[lo..hi]);
            && (r == [] || (!IsWhitespace(r[0]) && !IsWhitespace(r[|r| - 1])))
            && exists i :: lo <= i && i + |r| <= hi && s[i..i + |r|] == r
                           && AllWhitespace(s[lo..i]) && AllWhitespace(s[i + |r|..hi])
  {
    var w := s[lo..hi];
    var a := SkipWhitespace(w, 0);
    var b := SkipWhitespaceBack(w, a, |w|);
    assert Trim(w) == w[a..b];
    assert Trim(w) == [] || (!IsWhitespace(Trim(w)[0]) && !IsWhitespace(Trim(w)[|Trim(w)| - 1])) by {
      TrimSpec(w);
    }
    SliceOfSlice(s, lo, hi, a, b);
    SliceOfSlice(s, lo, hi, 0, a);
    SliceOfSlice(s, lo, hi, b, hi - lo);
    assert AllWhitespace(s[lo..lo + a]) && AllWhitespace(s[lo + b..hi]);
  }

  // ---------------------------------------------------------------------
  // split(/\s+/)
  // ---------------------------------------------------------------------

  /** The first index from `from` on that holds whitespace, or the length if there is none. */
  function NextWhitespace(s: string, from: nat): (i: nat)
    requires from <= |s|
    ensures from <= i <= |s|
    ensures NoWhitespace(s[from..i])
    ensures i < |s| ==> IsWhitespace(s[i])
    decreases |s| - from
  {
    if from == |s| || IsWhitespace(s[from]) then from
    else
      var i := NextWhitespace(s, from + 1);
      assert s[from..i] == [s[from]] + s[from + 1..i];
      i
  }

  /**
   * The pieces of `s[from..]` between maximal runs of whitespace: the piece
   * up to the next whitespace, then, past the run of whitespace there, the
   * rest split the same way.
   */
  function SplitFrom(s: string, from: nat): (words: seq<string>)
    requires from <= |s|
    ensures |words| >= 1
    decreases |s| - from
  {
    var i := NextWhitespace(s, from);
    if i == |s| then [s[from..]]
    else [s[from..i]] + SplitFrom(s, SkipWhitespace(s, i))
  }

  /**
   * `s.split(/\s+/)`: the pieces between maximal runs of whitespace. A
   * leading or trailing run yields an empty first or last piece, and the
   * empty string yields one empty piece.
   */
  function Split(s: string): (words: seq<string>)
    ensures |words| >= 1
  {
    SplitFrom(s, 0)
  }

  /** The words and the gaps between them, put back together. */
  function Interleave(words: seq<string>, gaps: seq<string>): string
    requires |words| == |gaps| + 1
    decreases |gaps|
  {
    if |gaps| == 0 then words[0]
    else words[0] + gaps[0] + Interleave(words[1..], gaps[1..])
  }

  /**
   * `words` is what splitting `s` at the runs `gaps` gives: the words hold no
   * whitespace, every gap is a non-empty run of whitespace, and no word but
   * the first and the last is empty (so the gaps are maximal runs).
   */
  ghost predicate SplitsInto(s: string, words: seq<string>, gaps: seq<string>) {
    && |words| == |gaps| + 1
    && Interleave(words, gaps) == s
    && (forall k :: 0 <= k < |words| ==> NoWhitespace(words[k]))
    && (forall k :: 0 < k < |words| - 1 ==> words[k] != [])
    && (forall k :: 0 <= k < |gaps| ==> gaps[k] != [] && AllWhitespace(gaps[k]))
  }

  /** Putting a word and a run of whitespace in front of a split string extends its split. */
  lemma SplitsIntoCons(w: string, g: string, rest: string, words: seq<string>, gaps: seq<string>)
    requires SplitsInto(rest, words, gaps)
    requires NoWhitespace(w) && g != [] && AllWhitespace(g)
    requires |words| > 1 ==> words[0] != []
    ensures SplitsInto(w + g + rest, [w] + words, [g] + gaps)
  {
    var words', gaps' := [w] + words, [g] + gaps;
    assert words'[1..] == words && gaps'[1..] == gaps;
    assert Interleave(words', gaps') == w + g + rest;
    forall k | 0 <= k < |words'|
      ensures NoWhitespace(words'[k])
    {
      if k > 0 {
        assert words'[k] == words[k - 1];
      }
    }
    forall k | 0 < k < |words'| - 1
      ensures words'[k] != []
    {
      assert words'[k] == words[k - 1];
    }
    forall k | 0 <= k < |gaps'|
      ensures gaps'[k] != [] && AllWhitespace(gaps'[k])
    {
      if k > 0 {
        assert gaps'[k] == gaps[k - 1];
      }
    }
  }

  /** Splitting from a position that does not hold whitespace gives a non-empty first word, if there is more than one. */
  lemma SplitFromFirstWordNonEmpty(s: string, from: nat)
    requires from == |s| || (from < |s| && !IsWhitespace(s[from]))
    ensures |SplitFrom(s, from)| > 1 ==> SplitFrom(s, from)[0] != []
  {
    var i := NextWhitespace(s, from);
    if i < |s| {
      assert i != from;
      assert SplitFrom(s, from)[0] == s[from..i];
    }
  }

  /** Three adjacent slices of `s` make up the slice from the first cut to the end. */
  lemma SlicesJoin(s: string, a: nat, b: nat, c: nat)
    requires a <= b <= c <= |s|
    ensures s[a..] == s[a..b] + s[b..c] + s[c..]
  {
  }

  /** One step of the split: a correct split of what follows the first whitespace run extends to one of `s[from..]`. */
  lemma SplitFromStep(s: string, from: nat, i: nat, j: nat)
    requires from <= |s| && i == NextWhitespace(s, from) && i < |s| && j == SkipWhitespace(s, i)
    requires exists gaps :: SplitsInto(s[j..], SplitFrom(s, j), gaps)
    ensures exists gaps :: SplitsInto(s[from..], SplitFrom(s, from), gaps)
  {
    var rest := SplitFrom(s, j);
    var gaps' :| SplitsInto(s[j..], rest, gaps');
    var w, g := s[from..i], s[i..j];
    SlicesJoin(s, from, i, j);
    assert SplitFrom(s, from) == [w] + rest;
    assert |rest| > 1 ==> rest[0] != [] by {
      SplitFromFirstWordNonEmpty(s, j);
    }
    SplitsIntoCons(w, g, s[j..], rest, gaps');
  }

  /** The split of `s[from..]` cuts it exactly at its maximal whitespace runs. */
  lemma {:induction false} SplitFromCorrect(s: string, from: nat)
    requires from <= |s|
    ensures exists gaps :: SplitsInto(s[from..], SplitFrom(s, from), gaps)
    decreases |s| - from
  {
    var i := NextWhitespace(s, from);
    if i == |s| {
      assert SplitsInto(s[from..], SplitFrom(s, from), []);
    } else {
      var j := SkipWhitespace(s, i);
      SplitFromCorrect(s, j);
      SplitFromStep(s, from, i, j);
    }
  }

  /** Split cuts its input exactly at its maximal whitespace runs. */
  lemma SplitCorrect(s: string)
    ensures exists gaps :: SplitsInto(s, Split(s), gaps)
  {
    SplitFromCorrect(s, 0);
    var gaps :| SplitsInto(s[0..], SplitFrom(s, 0), gaps);
    assert s[0..] == s;
    assert SplitsInto(s, Split(s), gaps);
  }

  /** The first word is empty exactly when the input is empty or starts with whitespace. */
  lemma SplitFirstWord(s: string)
    ensures Split(s)[0] == [] <==> (s == [] || IsWhitespace(s[0]))
  {
    var i := NextWhitespace(s, 0);
    if i == |s| {
      assert Split(s)[0] == s[0..];
    } else {
      assert Split(s)[0] == s[0..i];
    }
  }

  /** The last word of the split of `s[from..]` is empty exactly when that is empty or `s` ends with whitespace. */
  lemma {:induction false} SplitFromLastWord(s: string, from: nat)
    requires from <= |s|
    ensures var w := SplitFrom(s, from); w[|w| - 1] == [] <==> (from == |s| || IsWhitespace(s[|s| - 1]))
    decreases |s| - from
  {
    var w := SplitFrom(s, from);
    var i := NextWhitespace(s, from);
    if i == |s| {
      assert w[|w| - 1] == s[from..];
      if from < |s| {
        assert !IsWhitespace(s[from..][|s| - 1 - from]);
      }
    } else {
      var j := SkipWhitespace(s, i);
      var v := SplitFrom(s, j);
      SplitFromLastWord(s, j);
      assert w == [s[from..i]] + v;
      if j == |s| {
        assert IsWhitespace(s[i..j][|s| - 1 - i]);
      }
    }
  }

  /** The last word is empty exactly when the input is empty or ends with whitespace. */
  lemma SplitLastWord(s: string)
    ensures var w := Split(s); w[|w| - 1] == [] <==> (s == [] || IsWhitespace(s[|s| - 1]))
  {
    SplitFromLastWord(s, 0);
  }
}
