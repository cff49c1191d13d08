/** Search inside the open book (js/reader/search.js): a linear scan of the parsed search
    entries for those whose normalised line contains the normalised query, in order, stopping
    once enough are found. */
module InBookSearch {
  import opened Strings
  import opened ReaderParser

  /** Normalised queries shorter than this are refused. */
  const MinQueryLength := 2

  const DefaultMaxResults := 50

  datatype InBookResult = InBookResult(normalizedQuery: string, matches: seq<SearchEntry>)

  /** The positions of the entries whose normalised line contains `q`, in order. */
  function MatchPositions(index: seq<SearchEntry>, q: string): (pos: seq<int>)
    ensures forall k :: 0 <= k < |pos| ==> 0 <= pos[k] < |index| && Contains(index[pos[k]].normalizedLine, q)
    ensures forall k, l :: 0 <= k < l < |pos| ==> pos[k] < pos[l]
  {
    if index == [] then []
    else
      var init := index[..|index| - 1];
      var pos := MatchPositions(init, q);
      assert forall k :: 0 <= k < |pos| ==> index[pos[k]] == init[pos[k]];
      if Contains(index[|index| - 1].normalizedLine, q) then pos + [|index| - 1] else pos
  }

  /** Every entry that contains `q` has its position listed. */
  lemma {:induction false} MatchPositionsComplete(index: seq<SearchEntry>, q: string, j: int)
    requires 0 <= j < |index| && Contains(index[j].normalizedLine, q)
    ensures j in MatchPositions(index, q)
  {
    var init := index[..|index| - 1];
    if j < |index| - 1 {
      assert init[j] == index[j];
      MatchPositionsComplete(init, q, j);
    }
  }

  /** The entries that contain `q`, in index order. */
  function Matching(index: seq<SearchEntry>, q: string): (ms: seq<SearchEntry>)
    ensures |ms| == |MatchPositions(index, q)|
  {
    var pos := MatchPositions(index, q);
    seq(|pos|, k requires 0 <= k < |pos| => index[pos[k]])
  }

  /** The loop stops as soon as the count reaches `maxResults`, which it checks after a push,
      so at least one match is kept even when `maxResults` is not positive. */
  function Cap(maxResults: int): (c: nat)
    ensures c >= 1 && (maxResults >= 1 ==> c == maxResults)
  {
    if maxResults >= 1 then maxResults else 1
  }

  /** What `searchInBookIndex(searchIndex, query, maxResults)` returns. */
  function SearchInBook(index: seq<SearchEntry>, query: string, maxResults: int): InBookResult {
    var q := NormalizeArabicForSearch(query);
    if |q| < MinQueryLength then InBookResult("", [])
    else
      var all := Matching(index, q);
      InBookResult(q, if |all| <= Cap(maxResults) then all else all[..Cap(maxResults)])
  }

  lemma MatchingStep(index: seq<SearchEntry>, q: string, i: nat)
    requires i < |index|
    ensures Matching(index[..i + 1], q)
      == Matching(index[..i], q) + (if Contains(index[i].normalizedLine, q) then [index[i]] else [])
  {
    PrefixStep(index, i);
  }

  /** The matches of a prefix of the index are a prefix of the matches of the index. */
  lemma {:induction false} MatchingOfPrefix(index: seq<SearchEntry>, q: string, i: nat)
    requires i <= |index|
    ensures var m := Matching(index[..i], q);
      |m| <= |Matching(index, q)| && Matching(index, q)[..|m|] == m
    decreases |index| - i
  {
    if i < |index| {
      MatchingOfPrefix(index, q, i + 1);
      MatchingStep(index, q, i);
    } else {
      assert index[..i] == index;
    }
  }

  /** `searchInBookIndex`: scans the entries in order and keeps those that contain the
      normalised query, until `maxResults` are kept. */
  method SearchInBookIndex(searchIndex: seq<SearchEntry>, query: string, maxResults: int)
    returns (result: InBookResult)
    ensures result == SearchInBook(searchIndex, query, maxResults)
  {
    var normalizedQuery := NormalizeArabicForSearch(query);
    if |normalizedQuery| < MinQueryLength {
      return InBookResult("", []);
    }
    var matches: seq<SearchEntry> := [];
    var i := 0;
    while i < |searchIndex|
      invariant 0 <= i <= |searchIndex|
      invariant matches == Matching(searchIndex[..i], normalizedQuery)
      invariant |matches| < Cap(maxResults)
    {
      var entry := searchIndex[i];
      MatchingStep(searchIndex, normalizedQuery, i);
      if Contains(entry.normalizedLine, normalizedQuery) {
        matches := matches + [entry];
        if |matches| >= maxResults {
          MatchingOfPrefix(searchIndex, normalizedQuery, i + 1);
          return InBookResult(normalizedQuery, matches);
        }
      }
      i := i + 1;
    }
    assert searchIndex[..i] == searchIndex;
    result := InBookResult(normalizedQuery, matches);
  }

  /** A query whose normal form is shorter than two characters is refused with an empty
      query and no matches; any other comes back in normal form. */
  lemma ShortQueriesRefused(index: seq<SearchEntry>, query: string, maxResults: int)
    ensures var r := SearchInBook(index, query, maxResults);
      && (|NormalizeArabicForSearch(query)| < MinQueryLength <==> r.normalizedQuery == "")
      && (r.normalizedQuery == "" ==> r.matches == [])
      && (r.normalizedQuery != "" ==> r.normalizedQuery == NormalizeArabicForSearch(query))
  {
  }

  /** The matches are entries of the index, in index order, each containing the query, and
      there are at most `maxResults` of them (at most one when that is not positive). */
  lemma MatchesAreOrderedHits(index: seq<SearchEntry>, query: string, maxResults: int)
    ensures var r := SearchInBook(index, query, maxResults);
      var pos := MatchPositions(index, r.normalizedQuery);
      && |r.matches| <= Cap(maxResults)
      && |r.matches| <= |pos|
      && (forall k :: 0 <= k < |r.matches| ==>
            r.matches[k] == index[pos[k]] && Contains(r.matches[k].normalizedLine, r.normalizedQuery))
      && (forall k, l :: 0 <= k < l < |pos| ==> pos[k] < pos[l])
  {
  }

  /** Fewer matches than the cap means none was missed. */
  lemma NoMatchMissedBelowCap(index: seq<SearchEntry>, query: string, maxResults: int, j: int)
    requires |NormalizeArabicForSearch(query)| >= MinQueryLength
    requires |SearchInBook(index, query, maxResults).matches| < Cap(maxResults)
    requires 0 <= j < |index| && Contains(index[j].normalizedLine, NormalizeArabicForSearch(query))
    ensures index[j] in SearchInBook(index, query, maxResults).matches
  {
    var q := NormalizeArabicForSearch(query);
    MatchPositionsComplete(index, q, j);
    var pos := MatchPositions(index, q);
    var k :| 0 <= k < |pos| && pos[k] == j;
    assert Matching(index, q)[k] == index[j];
  }
}
