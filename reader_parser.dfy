/** The reader's text machinery (js/reader-parser.js): diacritic-insensitive normalisation,
    the map from normalised text back to source offsets, highlight ranges that take in
    trailing diacritics, HTML escaping, and the parsing of a book part into pages,
    chapters and search entries. */
module ReaderParser {
  import opened Wrappers
  import opened Strings

  /** The class of Arabic marks search ignores: U+0610 to U+061A, U+064B to U+065F,
      U+0670, U+06D6 to U+06ED and U+08D4 to U+08FF. */
  predicate IsArabicDiacritic(c: char) {
    ('\U{0610}' <= c <= '\U{061A}') || ('\U{064B}' <= c <= '\U{065F}') || c == '\U{0670}'
    || ('\U{06D6}' <= c <= '\U{06ED}') || ('\U{08D4}' <= c <= '\U{08FF}')
  }

  predicate FreeOfDiacritics(s: string) {
    forall i :: 0 <= i < |s| ==> !IsArabicDiacritic(s[i])
  }

  /** `text.replace(ARABIC_DIACRITICS, '')`: the text with every diacritic dropped. */
  function RemoveDiacritics(s: string): (r: string)
    ensures FreeOfDiacritics(r) && |r| <= |s|
  {
    if s == [] then []
    else if IsArabicDiacritic(s[|s| - 1]) then RemoveDiacritics(s[..|s| - 1])
    else RemoveDiacritics(s[..|s| - 1]) + [s[|s| - 1]]
  }

  /** Removing diacritics from text that has none changes nothing. */
  lemma {:induction false} RemoveDiacriticsOfFree(s: string)
    requires FreeOfDiacritics(s)
    ensures RemoveDiacritics(s) == s
  {
    if s != [] {
      RemoveDiacriticsOfFree(s[..|s| - 1]);
      assert s[..|s| - 1] + [s[|s| - 1]] == s;
    }
  }

  /** `normalizeArabicForSearch`: NFC, then diacritics removed, then lower case. */
  function NormalizeArabicForSearch(text: string): (r: string)
    ensures FreeOfDiacritics(r)
    ensures |r| <= |text|
  {
    Lower(RemoveDiacritics(Nfc(text)))
  }

  /** Normalising twice is normalising once, so a query that is already normalised comes
      back unchanged when `findDiacriticsInsensitiveRanges` normalises it again. */
  lemma NormalizeIdempotent(text: string)
    ensures NormalizeArabicForSearch(NormalizeArabicForSearch(text)) == NormalizeArabicForSearch(text)
  {
    var n := NormalizeArabicForSearch(text);
    RemoveDiacriticsOfFree(n);
    LowerIdempotent(RemoveDiacritics(Nfc(text)));
  }

  /** The offsets of the characters `RemoveDiacritics` keeps, in increasing order. */
  function KeptIndices(s: string): (m: seq<int>)
    ensures |m| == |RemoveDiacritics(s)|
    ensures forall i :: 0 <= i < |m| ==>
              0 <= m[i] < |s| && !IsArabicDiacritic(s[m[i]]) && RemoveDiacritics(s)[i] == s[m[i]]
    ensures forall i, j :: 0 <= i < j < |m| ==> m[i] < m[j]
  {
    if s == [] then []
    else
      var init := s[..|s| - 1];
      var m := KeptIndices(init);
      assert forall i :: 0 <= i < |m| ==> s[m[i]] == init[m[i]];
      if IsArabicDiacritic(s[|s| - 1]) then
        assert RemoveDiacritics(s) == RemoveDiacritics(init);
        m
      else
        assert RemoveDiacritics(s) == RemoveDiacritics(init) + [s[|s| - 1]];
        m + [|s| - 1]
  }

  /** What `buildNormalizedIndexMap` returns: the NFC source, its normalised form, and for
      each normalised character the source offset it came from. */
  datatype NormalizedMapping = NormalizedMapping(source: string, normalized: string, indexMap: seq<int>)

  /** The shape of a normalised mapping: one source offset per normalised character, each
      inside the source. */
  ghost predicate MapInSource(m: NormalizedMapping) {
    && |m.indexMap| == |m.normalized|
    && (forall i :: 0 <= i < |m.indexMap| ==> 0 <= m.indexMap[i] < |m.source|)
  }

  /** The invariants of a normalised mapping: one offset per normalised character, strictly
      increasing, each inside the source on a non-diacritic that lowers to that character,
      and every non-diacritic of the source is mapped. */
  ghost predicate ValidMapping(m: NormalizedMapping) {
    && MapInSource(m)
    && (forall i :: 0 <= i < |m.indexMap| ==>
          !IsArabicDiacritic(m.source[m.indexMap[i]]) && m.normalized[i] == LowerChar(m.source[m.indexMap[i]]))
    && (forall i, j :: 0 <= i < j < |m.indexMap| ==> m.indexMap[i] < m.indexMap[j])
  }

  /** Every non-diacritic of the source is mapped. Kept apart from `ValidMapping`: stated
      inside it, it would make the solver chase offsets through the map without end. */
  ghost predicate CompleteMapping(m: NormalizedMapping) {
    forall j :: 0 <= j < |m.source| && !IsArabicDiacritic(m.source[j]) ==> j in m.indexMap
  }

  /** Every non-diacritic offset of `s` is kept. */
  lemma {:induction false} KeptIndicesComplete(s: string)
    ensures forall j :: 0 <= j < |s| && !IsArabicDiacritic(s[j]) ==> j in KeptIndices(s)
  {
    if s != [] {
      var init := s[..|s| - 1];
      KeptIndicesComplete(init);
      forall j | 0 <= j < |s| && !IsArabicDiacritic(s[j]) ensures j in KeptIndices(s) {
        if j < |s| - 1 {
          assert init[j] == s[j];
        }
      }
    }
  }

  function MappingOf(text: string): NormalizedMapping {
    NormalizedMapping(Nfc(text), NormalizeArabicForSearch(text), KeptIndices(Nfc(text)))
  }

  /** The mapping of any text is valid, and its normalised text is exactly what
      `normalizeArabicForSearch` gives. */
  lemma MappingOfIsValid(text: string)
    ensures ValidMapping(MappingOf(text))
    ensures CompleteMapping(MappingOf(text))
    ensures MappingOf(text).normalized == NormalizeArabicForSearch(text)
    ensures MappingOf(text).source == text
  {
    KeptIndicesComplete(text);
  }

  /** Between two consecutive mapped offsets the source holds only diacritics. */
  lemma OnlyDiacriticsBetween(m: NormalizedMapping, i: int, j: int)
    requires ValidMapping(m) && CompleteMapping(m)
    requires 0 <= i < |m.indexMap| && m.indexMap[i] < j < |m.source|
    requires i + 1 == |m.indexMap| || j < m.indexMap[i + 1]
    ensures IsArabicDiacritic(m.source[j])
  {
    forall k | 0 <= k < |m.indexMap| ensures m.indexMap[k] != j {
      if k > i {
        assert m.indexMap[i + 1] <= m.indexMap[k];
      }
    }
  }

  /** `buildNormalizedIndexMap` (the same function appears in js/search/excerpt.js). */
  method BuildNormalizedIndexMap(text: string) returns (mapping: NormalizedMapping)
    ensures mapping == MappingOf(text)
  {
    var source := Nfc(text);
    var normalizedChars: string := [];
    var indexMap: seq<int> := [];
    var index := 0;
    while index < |source|
      invariant 0 <= index <= |source|
      invariant normalizedChars == Lower(RemoveDiacritics(source[..index]))
      invariant indexMap == KeptIndices(source[..index])
    {
      var c := source[index];
      assert source[..index + 1][..index] == source[..index];
      if !IsArabicDiacritic(c) {
        normalizedChars := normalizedChars + [LowerChar(c)];
        indexMap := indexMap + [index];
      }
      index := index + 1;
    }
    assert source[..|source|] == source;
    mapping := NormalizedMapping(source, normalizedChars, indexMap);
  }

  /** A highlight range `[start, end)` over source offsets. */
  datatype Range = Range(start: int, end: int)

  /** The end offset moved forward over the diacritics that follow it. */
  function SkipDiacritics(source: string, e: nat): (r: nat)
    requires e <= |source|
    ensures e <= r <= |source|
    ensures r == |source| || !IsArabicDiacritic(source[r])
    decreases |source| - e
  {
    if e < |source| && IsArabicDiacritic(source[e]) then SkipDiacritics(source, e + 1) else e
  }

  /** Everything skipped is a diacritic. */
  lemma {:induction false} SkippedAreDiacritics(source: string, e: nat)
    requires e <= |source|
    ensures forall j :: e <= j < SkipDiacritics(source, e) ==> IsArabicDiacritic(source[j])
    decreases |source| - e
  {
    if e < |source| && IsArabicDiacritic(source[e]) {
      SkippedAreDiacritics(source, e + 1);
    }
  }

  /** The source range of the occurrence of a query of length `qlen` at normalised offset
      `k`: from the offset of its first character to just past its last one, extended over
      trailing diacritics. Offsets outside the mapping never arise; the bounds test only
      keeps the function total. */
  function RangeAt(m: NormalizedMapping, k: int, qlen: int): Range {
    if 0 <= k && 0 < qlen && k + qlen <= |m.indexMap| && 0 <= m.indexMap[k + qlen - 1] < |m.source|
    then Range(m.indexMap[k], SkipDiacritics(m.source, m.indexMap[k + qlen - 1] + 1))
    else Range(0, 0)
  }

  /** The normalised offsets the search loop visits from `offset` on: each `indexOf` hit,
      the next search starting one past it, so overlapping occurrences are all found. */
  function Occurrences(s: string, q: string, offset: nat): (ks: seq<int>)
    requires |q| > 0
    ensures forall i :: 0 <= i < |ks| ==> offset <= ks[i] && OccursAt(s, q, ks[i])
    ensures forall i, j :: 0 <= i < j < |ks| ==> ks[i] < ks[j]
    decreases |s| - offset
  {
    if offset + |q| > |s| then []
    else
      var k := IndexOf(s, q, offset);
      if k == -1 then [] else [k] + Occurrences(s, q, k + 1)
  }

  /** No occurrence at or after `offset` is skipped, overlapping ones included. */
  lemma {:induction false} OccurrencesComplete(s: string, q: string, offset: nat, k: int)
    requires |q| > 0 && offset <= k && OccursAt(s, q, k)
    ensures k in Occurrences(s, q, offset)
    decreases |s| - offset
  {
    var first := IndexOf(s, q, offset);
    IndexOfIsFirst(s, q, offset);
    if first != k {
      OccurrencesComplete(s, q, first + 1, k);
    }
  }

  /** The ranges of the occurrences at normalised offsets `ks`, in order. */
  function RangesAlong(m: NormalizedMapping, qlen: int, ks: seq<int>): (rs: seq<Range>)
    ensures |rs| == |ks|
  {
    if ks == [] then [] else RangesAlong(m, qlen, ks[..|ks| - 1]) + [RangeAt(m, ks[|ks| - 1], qlen)]
  }

  /** The `i`-th collected range is the range of the `i`-th occurrence. */
  lemma {:induction false} RangesAlongIndex(m: NormalizedMapping, qlen: int, ks: seq<int>)
    ensures forall i :: 0 <= i < |ks| ==> RangesAlong(m, qlen, ks)[i] == RangeAt(m, ks[i], qlen)
  {
    if ks != [] {
      RangesAlongIndex(m, qlen, ks[..|ks| - 1]);
    }
  }

  /** One range per occurrence of `q` in the normalised text of `m`. */
  function RangesOver(m: NormalizedMapping, q: string): seq<Range>
    requires |q| > 0
  {
    RangesAlong(m, |q|, Occurrences(m.normalized, q, 0))
  }

  /** The ranges `findDiacriticsInsensitiveRanges` reports: none for an empty query, else
      one per occurrence of the re-normalised query in the normalised text. */
  function DiacriticsInsensitiveRanges(text: string, normalizedQuery: string): seq<Range> {
    var q := NormalizeArabicForSearch(normalizedQuery);
    MappingOfIsValid(text);
    if q == [] then [] else RangesOver(MappingOf(text), q)
  }

  /** The range of one occurrence lies inside the source, is non-empty, and ends at the end
      of the source or on a non-diacritic. */
  lemma RangeAtInSource(m: NormalizedMapping, k: int, qlen: int)
    requires ValidMapping(m) && 0 <= k && 0 < qlen && k + qlen <= |m.indexMap|
    ensures var r := RangeAt(m, k, qlen);
      && 0 <= r.start < r.end <= |m.source|
      && (r.end == |m.source| || !IsArabicDiacritic(m.source[r.end]))
  {
    var last := k + qlen - 1;
    assert 0 <= m.indexMap[last] < |m.source|;
    if k < last {
      assert m.indexMap[k] < m.indexMap[last];
    }
  }

  /** Each range lies inside the source, is non-empty, and ends at the end of the source or
      on a non-diacritic: the trailing diacritics of the last matched letter are taken in. */
  lemma RangesInSource(m: NormalizedMapping, q: string)
    requires ValidMapping(m) && |q| > 0
    ensures var rs := RangesOver(m, q);
      forall i :: 0 <= i < |rs| ==>
        && 0 <= rs[i].start < rs[i].end <= |m.source|
        && (rs[i].end == |m.source| || !IsArabicDiacritic(m.source[rs[i].end]))
  {
    var ks := Occurrences(m.normalized, q, 0);
    RangesAlongIndex(m, |q|, ks);
    var rs := RangesOver(m, q);
    forall i | 0 <= i < |rs|
      ensures 0 <= rs[i].start < rs[i].end <= |m.source|
      ensures rs[i].end == |m.source| || !IsArabicDiacritic(m.source[rs[i].end])
    {
      assert OccursAt(m.normalized, q, ks[i]);
      RangeAtInSource(m, ks[i], |q|);
    }
  }

  /** Each range starts on the source character of an occurrence of the query in the
      normalised text. */
  lemma RangesStartAtOccurrences(m: NormalizedMapping, q: string)
    requires ValidMapping(m) && |q| > 0
    ensures var rs := RangesOver(m, q);
      forall i :: 0 <= i < |rs| ==>
        exists k :: OccursAt(m.normalized, q, k) && m.indexMap[k] == rs[i].start
  {
    RangesAlongIndex(m, |q|, Occurrences(m.normalized, q, 0));
    var rs := RangesOver(m, q);
    var ks := Occurrences(m.normalized, q, 0);
    forall i | 0 <= i < |rs|
      ensures exists k :: OccursAt(m.normalized, q, k) && m.indexMap[k] == rs[i].start
    {
      assert OccursAt(m.normalized, q, ks[i]);
    }
  }

  /** Range starts strictly increase. */
  lemma RangesIncreasing(m: NormalizedMapping, q: string)
    requires ValidMapping(m) && |q| > 0
    ensures var rs := RangesOver(m, q);
      forall i, j :: 0 <= i < j < |rs| ==> rs[i].start < rs[j].start
  {
    RangesAlongIndex(m, |q|, Occurrences(m.normalized, q, 0));
    var rs := RangesOver(m, q);
    var ks := Occurrences(m.normalized, q, 0);
    forall i, j | 0 <= i < j < |rs| ensures rs[i].start < rs[j].start {
      assert ks[i] < ks[j];
    }
  }

  /** Every occurrence of the query in the normalised text, overlapping ones included, gets a
      range starting on its first source character. */
  lemma RangesCoverOccurrences(m: NormalizedMapping, q: string)
    requires ValidMapping(m) && |q| > 0
    ensures var rs := RangesOver(m, q);
      forall k :: OccursAt(m.normalized, q, k) ==>
        exists i :: 0 <= i < |rs| && rs[i].start == m.indexMap[k]
  {
    RangesAlongIndex(m, |q|, Occurrences(m.normalized, q, 0));
    var rs := RangesOver(m, q);
    var ks := Occurrences(m.normalized, q, 0);
    forall k | OccursAt(m.normalized, q, k)
      ensures exists i :: 0 <= i < |rs| && rs[i].start == m.indexMap[k]
    {
      OccurrencesComplete(m.normalized, q, 0, k);
      var i :| 0 <= i < |ks| && ks[i] == k;
      assert rs[i].start == m.indexMap[k];
    }
  }

  /** The inner loop of `findDiacriticsInsensitiveRanges`: move the end of a match past the
      diacritics that follow it. */
  method ExtendOverDiacritics(source: string, e: nat) returns (end: nat)
    requires e <= |source|
    ensures end == SkipDiacritics(source, e)
  {
    end := e;
    while end < |source| && IsArabicDiacritic(source[end])
      invariant e <= end <= |source|
      invariant SkipDiacritics(source, end) == SkipDiacritics(source, e)
      decreases |source| - end
    {
      end := end + 1;
    }
  }

  /** One pass of the search loop of `findDiacriticsInsensitiveRanges`: stop when the query
      no longer fits after `offset` or `indexOf` finds nothing; otherwise the range of the
      occurrence found (its end moved over the diacritics that follow) and the offset one
      past it. */
  method NextMatch(mapped: NormalizedMapping, query: string, offset: nat)
    returns (found: bool, r: Range, next: nat, ghost k: int)
    requires MapInSource(mapped) && |query| > 0
    ensures !found ==> Occurrences(mapped.normalized, query, offset) == []
    ensures found ==> offset < next <= |mapped.normalized|
    ensures found ==> Occurrences(mapped.normalized, query, offset) == [k] + Occurrences(mapped.normalized, query, next)
    ensures found ==> r == RangeAt(mapped, k, |query|)
  {
    if offset > |mapped.normalized| - |query| {
      return false, Range(0, 0), offset, -1;
    }
    var normalizedIndex := IndexOf(mapped.normalized, query, offset);
    k := normalizedIndex;
    if normalizedIndex == -1 {
      return false, Range(0, 0), offset, k;
    }
    var startOriginalIndex := mapped.indexMap[normalizedIndex];
    var endOriginalIndex := ExtendOverDiacritics(mapped.source, mapped.indexMap[normalizedIndex + |query| - 1] + 1);
    r := Range(startOriginalIndex, endOriginalIndex);
    found, next := true, normalizedIndex + 1;
    assert Occurrences(mapped.normalized, query, offset) == [normalizedIndex] + Occurrences(mapped.normalized, query, next);
    assert r == RangeAt(mapped, normalizedIndex, |query|);
  }

  lemma RangesAlongStep(m: NormalizedMapping, qlen: int, ks: seq<int>, i: nat)
    requires i < |ks|
    ensures RangesAlong(m, qlen, ks[..i + 1]) == RangesAlong(m, qlen, ks[..i]) + [RangeAt(m, ks[i], qlen)]
  {
    assert ks[..i + 1][..i] == ks[..i];
  }

  /** The search loop of `findDiacriticsInsensitiveRanges` over an already built mapping:
      it collects the range of every occurrence, in order. */
  method CollectRanges(mapped: NormalizedMapping, query: string) returns (ranges: seq<Range>)
    requires MapInSource(mapped) && |query| > 0
    ensures ranges == RangesOver(mapped, query)
  {
    ghost var all := Occurrences(mapped.normalized, query, 0);
    ghost var i := 0;
    ranges := [];
    var offset: nat := 0;
    while true
      invariant 0 <= i <= |all|
      invariant Occurrences(mapped.normalized, query, offset) == all[i..]
      invariant ranges == RangesAlong(mapped, |query|, all[..i])
      decreases |mapped.normalized| - offset
    {
      var found, r, next, k := NextMatch(mapped, query, offset);
      if !found {
        break;
      }
      DropCons(all, i, k, Occurrences(mapped.normalized, query, next));
      RangesAlongStep(mapped, |query|, all, i);
      ranges := ranges + [r];
      i := i + 1;
      offset := next;
    }
    assert all[..i] == all;
  }

  /** `findDiacriticsInsensitiveRanges`: the NFC source and the ranges of every occurrence of
      the re-normalised query. */
  method FindDiacriticsInsensitiveRanges(text: string, normalizedQuery: string)
    returns (source: string, ranges: seq<Range>)
    ensures source == Nfc(text)
    ensures ranges == DiacriticsInsensitiveRanges(text, normalizedQuery)
  {
    var query := NormalizeArabicForSearch(normalizedQuery);
    if query == [] {
      return Nfc(text), [];
    }
    var mapped := BuildNormalizedIndexMap(text);
    MappingOfIsValid(text);
    ranges := CollectRanges(mapped, query);
    source := mapped.source;
  }

  // ----- HTML escaping -----

  /** The entity `escapeHtml` writes for one character; other characters stay as they are.
      The chain of `replace` calls in the source rewrites `&` first, so no entity it writes is
      rewritten again, and the chain acts character by character. */
  function EscapeChar(c: char): string {
    match c
    case '&' => "&amp;"
    case '<' => "&lt;"
    case '>' => "&gt;"
    case '"' => "&quot;"
    case '\'' => "&#39;"
    case _ => [c]
  }

  predicate IsMarkupChar(c: char) {
    c == '<' || c == '>' || c == '"' || c == '\''
  }

  /** `escapeHtml`: every character replaced by its entity. */
  function EscapeHtml(s: string): string {
    ConcatMap(EscapeChar, s)
  }

  /** The escaped text holds no `<`, `>`, `"` or `'`, so it cannot open or close a tag or
      an attribute. */
  lemma {:induction false} EscapeHtmlHasNoMarkup(s: string)
    ensures var r := EscapeHtml(s); forall i :: 0 <= i < |r| ==> !IsMarkupChar(r[i])
  {
    if s != [] {
      EscapeHtmlHasNoMarkup(s[1..]);
      EscapeCharHasNoMarkup(s[0]);
      var e, r := EscapeChar(s[0]), EscapeHtml(s[1..]);
      forall i | 0 <= i < |e + r| ensures !IsMarkupChar((e + r)[i]) {
        if i < |e| {
          assert (e + r)[i] == e[i];
        } else {
          assert (e + r)[i] == r[i - |e|];
        }
      }
    }
  }

  lemma EscapeCharHasNoMarkup(c: char)
    ensures forall i :: 0 <= i < |EscapeChar(c)| ==> !IsMarkupChar(EscapeChar(c)[i])
  {
    var e := EscapeChar(c);
    if c == '&' || c == '<' || c == '>' || c == '"' || c == '\'' {
      forall i | 0 <= i < |e| ensures !IsMarkupChar(e[i]) {
        assert e[i] in e;
        assert forall x :: x in e ==> x in "&amp;lt;gt;quot;#39";
      }
    }
  }

  /** Decoding of the five entities `escapeHtml` writes, the partner of `EscapeHtml`. */
  function UnescapeHtml(s: string): string
    decreases |s|
  {
    if s == [] then []
    else if s[0] != '&' then [s[0]] + UnescapeHtml(s[1..])
    else if StartsWith(s, "&amp;") then "&" + UnescapeHtml(s[5..])
    else if StartsWith(s, "&lt;") then "<" + UnescapeHtml(s[4..])
    else if StartsWith(s, "&gt;") then ">" + UnescapeHtml(s[4..])
    else if StartsWith(s, "&quot;") then "\"" + UnescapeHtml(s[6..])
    else if StartsWith(s, "&#39;") then "'" + UnescapeHtml(s[5..])
    else [s[0]] + UnescapeHtml(s[1..])
  }

  lemma UnescapeEscapedChar(c: char, t: string)
    ensures UnescapeHtml(EscapeChar(c) + t) == [c] + UnescapeHtml(t)
  {
    var e := EscapeChar(c) + t;
    var n := |EscapeChar(c)|;
    assert e[..n] == EscapeChar(c) && e[n..] == t;
    if c == '&' {
      assert StartsWith(e, "&amp;");
    } else if c == '<' {
      assert e[1] == 'l';
      assert !StartsWith(e, "&amp;") by { assert "&amp;"[1] == 'a'; }
      assert StartsWith(e, "&lt;");
    } else if c == '>' {
      assert e[1] == 'g';
      assert !StartsWith(e, "&amp;") by { assert "&amp;"[1] == 'a'; }
      assert !StartsWith(e, "&lt;") by { assert "&lt;"[1] == 'l'; }
      assert StartsWith(e, "&gt;");
    } else if c == '"' {
      assert e[1] == 'q';
      assert !StartsWith(e, "&amp;") by { assert "&amp;"[1] == 'a'; }
      assert !StartsWith(e, "&lt;") by { assert "&lt;"[1] == 'l'; }
      assert !StartsWith(e, "&gt;") by { assert "&gt;"[1] == 'g'; }
      assert StartsWith(e, "&quot;");
    } else if c == '\'' {
      assert e[1] == '#';
      assert !StartsWith(e, "&amp;") by { assert "&amp;"[1] == 'a'; }
      assert !StartsWith(e, "&lt;") by { assert "&lt;"[1] == 'l'; }
      assert !StartsWith(e, "&gt;") by { assert "&gt;"[1] == 'g'; }
      assert !StartsWith(e, "&quot;") by { assert "&quot;"[1] == 'q'; }
      assert StartsWith(e, "&#39;");
    } else {
      assert e[0] == c && e[1..] == t;
    }
  }

  /** Escaping loses nothing: decoding the escaped text gives the text back. */
  lemma {:induction false} UnescapeEscapeHtml(s: string)
    ensures UnescapeHtml(EscapeHtml(s)) == s
  {
    if s != [] {
      UnescapeEscapeHtml(s[1..]);
      UnescapeEscapedChar(s[0], EscapeHtml(s[1..]));
      assert [s[0]] + s[1..] == s;
    }
  }

  // ----- Highlighting -----

  /** A piece of a highlighted line: plain text, or text wrapped in a highlight span. */
  datatype Segment = Plain(text: string) | Marked(text: string)

  /** Every range lies inside the source. */
  predicate RangesWithin(source: string, ranges: seq<Range>) {
    forall i :: 0 <= i < |ranges| ==> 0 <= ranges[i].start <= ranges[i].end <= |source|
  }

  /** The segments `highlightTextIgnoringDiacritics` emits from range `i` on, with the text
      before `cursor` already written: a range that starts before the cursor (one that
      overlaps the previous highlight) is skipped; otherwise the text up to it is plain and
      the range itself is marked. The rest of the text closes the line. */
  function SegmentsFrom(source: string, ranges: seq<Range>, i: nat, cursor: nat): seq<Segment>
    requires RangesWithin(source, ranges) && cursor <= |source| && i <= |ranges|
    decreases |ranges| - i
  {
    if i == |ranges| then [Plain(source[cursor..])]
    else
      var r := ranges[i];
      if r.start < cursor then SegmentsFrom(source, ranges, i + 1, cursor)
      else ([Plain(source[cursor..r.start]), Marked(source[r.start..r.end])]
            + SegmentsFrom(source, ranges, i + 1, r.end))
  }

  function SegmentText(seg: Segment): string { seg.text }

  /** The text of the segments, markup left aside. */
  function Flatten(segs: seq<Segment>): string {
    ConcatMap(SegmentText, segs)
  }

  /** The markup of one segment: plain text escaped, marked text escaped and wrapped. */
  function RenderSegment(seg: Segment): string {
    match seg
    case Plain(t) => EscapeHtml(t)
    case Marked(t) => "<span class=\"highlight\">" + EscapeHtml(t) + "</span>"
  }

  /** The markup of the segments, one after the other. */
  function Render(segs: seq<Segment>): string {
    ConcatMap(RenderSegment, segs)
  }

  /** Highlighting never drops, repeats or reorders text: the segments from `cursor` on
      spell out exactly the rest of the source. */
  lemma {:induction false} SegmentsSpellSource(source: string, ranges: seq<Range>, i: nat, cursor: nat)
    requires RangesWithin(source, ranges) && cursor <= |source| && i <= |ranges|
    ensures Flatten(SegmentsFrom(source, ranges, i, cursor)) == source[cursor..]
    decreases |ranges| - i
  {
    if i == |ranges| {
      ConcatMapSingle(SegmentText, Plain(source[cursor..]));
    } else {
      var r := ranges[i];
      if r.start >= cursor {
        var head := [Plain(source[cursor..r.start]), Marked(source[r.start..r.end])];
        SegmentsSpellSource(source, ranges, i + 1, r.end);
        ConcatMapPair(SegmentText, head[0], head[1], SegmentsFrom(source, ranges, i + 1, r.end));
        assert source[cursor..] == source[cursor..r.start] + source[r.start..r.end] + source[r.end..];
      } else {
        SegmentsSpellSource(source, ranges, i + 1, cursor);
      }
    }
  }

  /** `t` is the text of one of the ranges from `i` on. */
  predicate IsRangeText(source: string, ranges: seq<Range>, i: nat, t: string)
    requires RangesWithin(source, ranges)
  {
    exists k :: i <= k < |ranges| && t == source[ranges[k].start..ranges[k].end]
  }

  /** Every marked segment of `segs` is the text of one of the ranges from `i` on. */
  predicate MarkedAreRangeTexts(source: string, ranges: seq<Range>, i: nat, segs: seq<Segment>)
    requires RangesWithin(source, ranges)
  {
    forall j :: 0 <= j < |segs| && segs[j].Marked? ==> IsRangeText(source, ranges, i, segs[j].text)
  }

  /** Nothing outside a match is highlighted. */
  lemma {:induction false} MarkedAreRanges(source: string, ranges: seq<Range>, i: nat, cursor: nat)
    requires RangesWithin(source, ranges) && cursor <= |source| && i <= |ranges|
    ensures MarkedAreRangeTexts(source, ranges, i, SegmentsFrom(source, ranges, i, cursor))
    decreases |ranges| - i
  {
    var segs := SegmentsFrom(source, ranges, i, cursor);
    if i < |ranges| {
      var r := ranges[i];
      var next := if r.start < cursor then cursor else r.end;
      var rest := SegmentsFrom(source, ranges, i + 1, next);
      MarkedAreRanges(source, ranges, i + 1, next);
      assert MarkedAreRangeTexts(source, ranges, i + 1, rest);
      forall j | 0 <= j < |segs| && segs[j].Marked?
        ensures IsRangeText(source, ranges, i, segs[j].text)
      {
        if r.start < cursor {
          assert segs == rest;
          assert 0 <= j < |rest| && rest[j].Marked?;
          assert IsRangeText(source, ranges, i + 1, rest[j].text);
          var k :| i + 1 <= k < |ranges| && rest[j].text == source[ranges[k].start..ranges[k].end];
        } else if j == 1 {
          assert segs[j].text == source[ranges[i].start..ranges[i].end];
        } else {
          assert j >= 2 && segs[j] == rest[j - 2];
          assert 0 <= j - 2 < |rest| && rest[j - 2].Marked?;
          assert IsRangeText(source, ranges, i + 1, rest[j - 2].text);
          var k :| i + 1 <= k < |ranges| && rest[j - 2].text == source[ranges[k].start..ranges[k].end];
        }
      }
    }
  }

  /** What `highlightTextIgnoringDiacritics` returns for a line. */
  function Highlight(line: string, normalizedQuery: string): string {
    var ranges := DiacriticsInsensitiveRanges(line, normalizedQuery);
    HighlightRangesWithin(line, normalizedQuery);
    Render(SegmentsFrom(Nfc(line), ranges, 0, 0))
  }

  lemma HighlightRangesWithin(line: string, normalizedQuery: string)
    ensures RangesWithin(Nfc(line), DiacriticsInsensitiveRanges(line, normalizedQuery))
  {
    var q := NormalizeArabicForSearch(normalizedQuery);
    if q != [] {
      MappingOfIsValid(line);
      RangesInSource(MappingOf(line), q);
    }
  }

  /** With no match the line comes back escaped and nothing else; stripped of its markup,
      a highlighted line is always the escaped line. */
  lemma HighlightPreservesText(line: string, normalizedQuery: string)
    ensures DiacriticsInsensitiveRanges(line, normalizedQuery) == [] ==>
      Highlight(line, normalizedQuery) == EscapeHtml(Nfc(line))
    ensures RangesWithin(Nfc(line), DiacriticsInsensitiveRanges(line, normalizedQuery))
    ensures Flatten(SegmentsFrom(Nfc(line), DiacriticsInsensitiveRanges(line, normalizedQuery), 0, 0)) == Nfc(line)
  {
    var ranges := DiacriticsInsensitiveRanges(line, normalizedQuery);
    HighlightRangesWithin(line, normalizedQuery);
    SegmentsSpellSource(Nfc(line), ranges, 0, 0);
    assert Nfc(line)[0..] == Nfc(line);
    if ranges == [] {
      assert Nfc(line)[0..] == Nfc(line);
      ConcatMapSingle(RenderSegment, Plain(Nfc(line)));
    }
  }

  /** One range of the loop in `highlightTextIgnoringDiacritics`: what it appends and where
      the cursor moves. */
  method HighlightStep(source: string, ranges: seq<Range>, i: nat, cursor: nat) returns (piece: string, next: nat)
    requires RangesWithin(source, ranges) && cursor <= |source| && i < |ranges|
    ensures next <= |source|
    ensures Render(SegmentsFrom(source, ranges, i, cursor)) == piece + Render(SegmentsFrom(source, ranges, i + 1, next))
  {
    var start, end := ranges[i].start, ranges[i].end;
    if start < cursor {
      return "", cursor;
    }
    var head := [Plain(source[cursor..start]), Marked(source[start..end])];
    ConcatMapPair(RenderSegment, head[0], head[1], SegmentsFrom(source, ranges, i + 1, end));
    piece := EscapeHtml(source[cursor..start]) + ("<span class=\"highlight\">" + EscapeHtml(source[start..end]) + "</span>");
    next := end;
  }

  /** `highlightTextIgnoringDiacritics`: the line escaped, with every match that does not
      overlap an earlier one wrapped in a highlight span. */
  method HighlightTextIgnoringDiacritics(line: string, normalizedQuery: string) returns (html: string)
    ensures html == Highlight(line, normalizedQuery)
  {
    var source, ranges := FindDiacriticsInsensitiveRanges(line, normalizedQuery);
    HighlightRangesWithin(line, normalizedQuery);
    ghost var total := Render(SegmentsFrom(source, ranges, 0, 0));
    if |ranges| == 0 {
      assert source[0..] == source;
      ConcatMapSingle(RenderSegment, Plain(source));
      return EscapeHtml(source);
    }
    html := "";
    var cursor: nat := 0;
    var i := 0;
    while i < |ranges|
      invariant 0 <= i <= |ranges| && cursor <= |source|
      invariant html + Render(SegmentsFrom(source, ranges, i, cursor)) == total
    {
      var piece, next := HighlightStep(source, ranges, i, cursor);
      html, cursor, i := html + piece, next, i + 1;
    }
    ConcatMapSingle(RenderSegment, Plain(source[cursor..]));
    html := html + EscapeHtml(source[cursor..]);
  }

  // ----- Pages -----

  const PageSeparator := "PAGE_SEPARATOR"

  /** `splitBookPages`: the book text cut at every page separator. */
  function SplitBookPages(text: string): (pages: seq<string>)
    ensures |pages| >= 1
  {
    if !Contains(text, PageSeparator) then [text] else SplitOn(text, PageSeparator)
  }

  /** The pages are the text between separators: none holds a separator, and joining them
      with the separator gives the book text back. */
  lemma SplitBookPagesRoundTrip(text: string)
    ensures var pages := SplitBookPages(text);
      Join(pages, PageSeparator) == text
      && (forall i :: 0 <= i < |pages| ==> !Contains(pages[i], PageSeparator))
      && (|pages| == 1 <==> !Contains(text, PageSeparator))
  {
    JoinSplit(text, PageSeparator);
    if !Contains(text, PageSeparator) {
      assert SplitOn(text, PageSeparator) == [text];
    }
  }

  // ----- Parsing a page -----

  /** The chapter title of lines that come before the first heading of a page. */
  const BookStartTitle := "بداية الكتاب"

  /** A heading of a page: its title and its anchor id. */
  datatype Chapter = Chapter(title: string, id: string)

  /** One searchable line: the trimmed line, its normalised form, its page and the chapter
      it was found under. */
  datatype SearchEntry = SearchEntry(line: string, normalizedLine: string, pageIndex: nat,
                                     chapterTitle: string, chapterId: string)

  /** What `parsePage` returns. */
  datatype ParsedPage = ParsedPage(html: string, chapters: seq<Chapter>, entries: seq<SearchEntry>,
                                   nextChapterIndex: nat)

  /** The anchor id of the chapter numbered `n` across the whole book. */
  function ChapterId(n: nat): string {
    "chap-" + NatToString(n)
  }

  /** A chapter id is never empty, so it cannot be mistaken for the id of the lines that come
      before the first heading. */
  lemma ChapterIdNotEmpty(n: nat)
    ensures ChapterId(n) != ""
  {
    assert |ChapterId(n)| == 5 + |NatToString(n)|;
  }

  /** Distinct chapter numbers give distinct anchors. */
  lemma ChapterIdInjective(a: nat, b: nat)
    ensures ChapterId(a) == ChapterId(b) ==> a == b
  {
    if ChapterId(a) == ChapterId(b) {
      assert NatToString(a) == ChapterId(a)[5..];
      assert NatToString(b) == ChapterId(b)[5..];
      DigitsValueOfNatToString(a);
      DigitsValueOfNatToString(b);
    }
  }

  /** A trimmed line that starts with `##` is a heading. */
  predicate IsHeading(trimmed: string) {
    StartsWith(trimmed, "##")
  }

  /** The title of a heading line: the text after the first `##`, trimmed. */
  function HeadingTitle(trimmed: string): string
    requires IsHeading(trimmed)
  {
    Trim(trimmed[2..])
  }

  function HeadingHtml(id: string, title: string): string {
    "<h2 id=\"" + id + "\" class=\"chapter-heading fade-in\">" + EscapeHtml(title) + "</h2>"
  }

  function ParagraphHtml(line: string): string {
    "<p class=\"fade-in\">" + EscapeHtml(line) + "</p>"
  }

  // The page is specified line by line: each function below gives one of the values
  // `parsePage` keeps, after the lines `lines` of the page.

  /** The titles of the heading lines, in order. */
  function HeadingTitles(lines: seq<string>): seq<string> {
    if lines == [] then []
    else
      var t := Trim(lines[|lines| - 1]);
      HeadingTitles(lines[..|lines| - 1]) + (if IsHeading(t) then [HeadingTitle(t)] else [])
  }

  /** The trimmed non-blank lines that are not headings, in order. */
  function ContentLines(lines: seq<string>): seq<string> {
    if lines == [] then []
    else
      var t := Trim(lines[|lines| - 1]);
      ContentLines(lines[..|lines| - 1]) + (if !IsHeading(t) && |t| > 0 then [t] else [])
  }

  /** Chapters with the given titles, numbered on from `start`. */
  function NumberedChapters(titles: seq<string>, start: nat): (cs: seq<Chapter>)
    ensures |cs| == |titles|
    ensures forall k :: 0 <= k < |cs| ==> cs[k].title == titles[k] && cs[k].id == ChapterId(start + k)
  {
    seq(|titles|, k requires 0 <= k < |titles| => Chapter(titles[k], ChapterId(start + k)))
  }

  lemma NumberedChaptersSnoc(titles: seq<string>, t: string, start: nat, n: nat)
    requires n == start + |titles|
    ensures NumberedChapters(titles + [t], start) == NumberedChapters(titles, start) + [Chapter(t, ChapterId(n))]
  {
  }

  /** The title entries are filed under: the latest non-empty heading title, and the
      book-start title before any. */
  function CurrentTitle(lines: seq<string>): string {
    if lines == [] then BookStartTitle
    else
      var t := Trim(lines[|lines| - 1]);
      if IsHeading(t) && HeadingTitle(t) != "" then HeadingTitle(t) else CurrentTitle(lines[..|lines| - 1])
  }

  /** The id entries are filed under: that of the latest heading, empty before any. */
  function CurrentId(lines: seq<string>, start: nat): string {
    var titles := HeadingTitles(lines);
    if titles == [] then "" else ChapterId(start + |titles| - 1)
  }

  /** The markup of the lines: a heading with its anchor, or a paragraph; nothing for a
      blank line. */
  function PageHtml(lines: seq<string>, start: nat): string {
    if lines == [] then ""
    else
      var init := lines[..|lines| - 1];
      var t := Trim(lines[|lines| - 1]);
      PageHtml(init, start)
        + (if IsHeading(t) then HeadingHtml(ChapterId(start + |HeadingTitles(init)|), HeadingTitle(t))
           else if |t| > 0 then ParagraphHtml(t)
           else "")
  }

  /** The search entries of the lines: one per content line, under the chapter current
      at that line. */
  function PageEntries(lines: seq<string>, start: nat, pageIndex: nat): seq<SearchEntry> {
    if lines == [] then []
    else
      var init := lines[..|lines| - 1];
      var t := Trim(lines[|lines| - 1]);
      PageEntries(init, start, pageIndex)
        + (if !IsHeading(t) && |t| > 0
           then [SearchEntry(t, NormalizeArabicForSearch(t), pageIndex, CurrentTitle(init), CurrentId(init, start))]
           else [])
  }

  /** What `parsePage` returns for a page's text. */
  function PageOf(text: string, chapterIndexStart: nat, pageIndex: nat): ParsedPage {
    var lines := Lines(text);
    var titles := HeadingTitles(lines);
    ParsedPage(PageHtml(lines, chapterIndexStart), NumberedChapters(titles, chapterIndexStart),
               PageEntries(lines, chapterIndexStart, pageIndex), chapterIndexStart + |titles|)
  }

  function EntryLines(es: seq<SearchEntry>): (lines: seq<string>)
    ensures |lines| == |es|
  {
    seq(|es|, k requires 0 <= k < |es| => es[k].line)
  }

  /** The search entries are the content lines, each with its normal form and the page
      index. */
  lemma {:induction false} PageEntriesAreContentLines(lines: seq<string>, start: nat, pageIndex: nat)
    ensures var es := PageEntries(lines, start, pageIndex);
      EntryLines(es) == ContentLines(lines)
      && forall e :: e in es ==> e.normalizedLine == NormalizeArabicForSearch(e.line) && e.pageIndex == pageIndex
  {
    if lines != [] {
      var init := lines[..|lines| - 1];
      var t := Trim(lines[|lines| - 1]);
      PageEntriesAreContentLines(init, start, pageIndex);
      var es0 := PageEntries(init, start, pageIndex);
      if !IsHeading(t) && |t| > 0 {
        var es := PageEntries(lines, start, pageIndex);
        assert es == es0 + [es[|es| - 1]];
        assert EntryLines(es) == EntryLines(es0) + [t];
      }
    }
  }

  /** The lines that become search entries are non-blank, already trimmed, and not
      headings. */
  lemma {:induction false} ContentLinesAreTrimmed(lines: seq<string>)
    ensures forall l :: l in ContentLines(lines) ==> |l| > 0 && Trim(l) == l && !IsHeading(l)
  {
    if lines != [] {
      ContentLinesAreTrimmed(lines[..|lines| - 1]);
      TrimIdempotent(lines[|lines| - 1]);
    }
  }

  /** The current title is the book-start title until a heading with a non-empty title,
      and then the latest such title. */
  lemma {:induction false} CurrentTitleIsLatestTitle(lines: seq<string>)
    ensures var titles := HeadingTitles(lines); var title := CurrentTitle(lines);
      (titles == [] ==> title == BookStartTitle)
      && (title == BookStartTitle || (title in titles && title != ""))
  {
    if lines != [] {
      var init := lines[..|lines| - 1];
      CurrentTitleIsLatestTitle(init);
      var titles0 := HeadingTitles(init);
      var t := Trim(lines[|lines| - 1]);
      if IsHeading(t) {
        assert HeadingTitles(lines) == titles0 + [HeadingTitle(t)];
        assert HeadingTitle(t) in HeadingTitles(lines);
      } else {
        assert HeadingTitles(lines) == titles0 + [];
        assert CurrentTitle(lines) == CurrentTitle(init);
      }
    }
  }

  /** The id is one of the page's chapters. */
  predicate IsChapterOf(chapters: seq<Chapter>, id: string) {
    exists k :: 0 <= k < |chapters| && chapters[k].id == id
  }

  /** The entry is filed under one of the page's chapters, or, with an empty id, under the
      book-start title; its title is the book-start title or one of the page's titles. */
  predicate FiledUnderPage(e: SearchEntry, titles: seq<string>, chapters: seq<Chapter>) {
    && (e.chapterId == "" ==> e.chapterTitle == BookStartTitle)
    && (e.chapterId != "" ==> IsChapterOf(chapters, e.chapterId))
    && (e.chapterTitle == BookStartTitle || e.chapterTitle in titles)
  }

  lemma FiledUnderMoreTitles(e: SearchEntry, titles: seq<string>, more: seq<string>, start: nat)
    requires FiledUnderPage(e, titles, NumberedChapters(titles, start))
    ensures FiledUnderPage(e, titles + more, NumberedChapters(titles + more, start))
  {
    var cs0, cs := NumberedChapters(titles, start), NumberedChapters(titles + more, start);
    if e.chapterId != "" {
      var k :| 0 <= k < |cs0| && cs0[k].id == e.chapterId;
      assert cs[k] == cs0[k];
    }
    if e.chapterTitle != BookStartTitle {
      var k :| 0 <= k < |titles| && titles[k] == e.chapterTitle;
      assert (titles + more)[k] == titles[k];
    }
  }

  /** The entry a content line adds is filed under the page's chapters so far. */
  lemma NewEntryFiled(lines: seq<string>, start: nat, t: string, pageIndex: nat)
    ensures var titles := HeadingTitles(lines);
      FiledUnderPage(SearchEntry(t, NormalizeArabicForSearch(t), pageIndex, CurrentTitle(lines), CurrentId(lines, start)),
                     titles, NumberedChapters(titles, start))
  {
    var titles := HeadingTitles(lines);
    CurrentTitleIsLatestTitle(lines);
    if titles != [] {
      ChapterIdNotEmpty(start + |titles| - 1);
      assert NumberedChapters(titles, start)[|titles| - 1].id == CurrentId(lines, start);
    }
  }

  /** Every entry of a page is filed under a chapter of that same page, or, when it comes
      before the page's first heading, under the book-start title with an empty id, whatever
      chapter an earlier page ended in. */
  lemma {:induction false} EntriesFiledUnderPageChapters(lines: seq<string>, start: nat, pageIndex: nat)
    ensures forall k :: 0 <= k < |PageEntries(lines, start, pageIndex)| ==>
      FiledUnderPage(PageEntries(lines, start, pageIndex)[k], HeadingTitles(lines),
                     NumberedChapters(HeadingTitles(lines), start))
  {
    if lines != [] {
      var init := lines[..|lines| - 1];
      var t := Trim(lines[|lines| - 1]);
      EntriesFiledUnderPageChapters(init, start, pageIndex);
      var titles0, titles := HeadingTitles(init), HeadingTitles(lines);
      var more := if IsHeading(t) then [HeadingTitle(t)] else [];
      assert titles == titles0 + more;
      var es0, es := PageEntries(init, start, pageIndex), PageEntries(lines, start, pageIndex);
      var added := if !IsHeading(t) && |t| > 0
        then [SearchEntry(t, NormalizeArabicForSearch(t), pageIndex, CurrentTitle(init), CurrentId(init, start))]
        else [];
      assert es == es0 + added;
      forall k | 0 <= k < |es| ensures FiledUnderPage(es[k], titles, NumberedChapters(titles, start)) {
        if k < |es0| {
          assert es[k] == es0[k];
          FiledUnderMoreTitles(es0[k], titles0, more, start);
        } else {
          NewEntryFiled(init, start, t, pageIndex);
          FiledUnderMoreTitles(added[0], titles0, more, start);
        }
      }
    }
  }

  lemma DropCons<T>(s: seq<T>, i: nat, x: T, rest: seq<T>)
    requires i <= |s| && s[i..] == [x] + rest
    ensures i < |s| && s[i] == x && s[i + 1..] == rest
  {
    assert s[i..][0] == x;
    assert s[i..][1..] == rest;
  }

  lemma PrefixStep<T>(s: seq<T>, i: nat)
    requires i < |s|
    ensures var p := s[..i + 1]; p[..|p| - 1] == s[..i] && p[|p| - 1] == s[i]
  {
  }

  /** What a heading line adds to each value of the page. */
  lemma HeadingLineStep(lines: seq<string>, i: nat, start: nat, pageIndex: nat, n: nat)
    requires i < |lines| && IsHeading(Trim(lines[i]))
    requires n == start + |HeadingTitles(lines[..i])|
    ensures HeadingTitles(lines[..i + 1]) == HeadingTitles(lines[..i]) + [HeadingTitle(Trim(lines[i]))]
    ensures PageHtml(lines[..i + 1], start)
      == PageHtml(lines[..i], start) + HeadingHtml(ChapterId(n), HeadingTitle(Trim(lines[i])))
    ensures PageEntries(lines[..i + 1], start, pageIndex) == PageEntries(lines[..i], start, pageIndex)
    ensures CurrentTitle(lines[..i + 1])
      == if HeadingTitle(Trim(lines[i])) != "" then HeadingTitle(Trim(lines[i])) else CurrentTitle(lines[..i])
    ensures CurrentId(lines[..i + 1], start) == ChapterId(n)
  {
    HeadingLineIds(lines, i, start, n);
    PrefixStep(lines, i);
    var before, after := lines[..i], lines[..i + 1];
    assert after[..|after| - 1] == before && Trim(after[|after| - 1]) == Trim(lines[i]);
    assert PageEntries(after, start, pageIndex) == PageEntries(before, start, pageIndex) + [];
  }

  /** The parts of `HeadingLineStep` that involve the chapter number. */
  lemma HeadingLineIds(lines: seq<string>, i: nat, start: nat, n: nat)
    requires i < |lines| && IsHeading(Trim(lines[i]))
    requires n == start + |HeadingTitles(lines[..i])|
    ensures HeadingTitles(lines[..i + 1]) == HeadingTitles(lines[..i]) + [HeadingTitle(Trim(lines[i]))]
    ensures PageHtml(lines[..i + 1], start)
      == PageHtml(lines[..i], start) + HeadingHtml(ChapterId(n), HeadingTitle(Trim(lines[i])))
    ensures CurrentId(lines[..i + 1], start) == ChapterId(n)
  {
    HeadingLineTitles(lines, i);
    HeadingLineId(lines, i, start, n);
    PrefixStep(lines, i);
    var before, after := lines[..i], lines[..i + 1];
    assert after[..|after| - 1] == before && Trim(after[|after| - 1]) == Trim(lines[i]);
  }

  lemma HeadingLineTitles(lines: seq<string>, i: nat)
    requires i < |lines| && IsHeading(Trim(lines[i]))
    ensures HeadingTitles(lines[..i + 1]) == HeadingTitles(lines[..i]) + [HeadingTitle(Trim(lines[i]))]
  {
    PrefixStep(lines, i);
  }

  lemma HeadingLineId(lines: seq<string>, i: nat, start: nat, n: nat)
    requires i < |lines| && IsHeading(Trim(lines[i]))
    requires n == start + |HeadingTitles(lines[..i])|
    ensures CurrentId(lines[..i + 1], start) == ChapterId(n)
  {
    HeadingLineTitles(lines, i);
    assert start + |HeadingTitles(lines[..i + 1])| - 1 == n;
  }

  /** What a content line adds to each value of the page. */
  lemma ContentLineStep(lines: seq<string>, i: nat, start: nat, pageIndex: nat)
    requires i < |lines| && !IsHeading(Trim(lines[i])) && |Trim(lines[i])| > 0
    ensures HeadingTitles(lines[..i + 1]) == HeadingTitles(lines[..i])
    ensures PageHtml(lines[..i + 1], start) == PageHtml(lines[..i], start) + ParagraphHtml(Trim(lines[i]))
    ensures PageEntries(lines[..i + 1], start, pageIndex)
      == PageEntries(lines[..i], start, pageIndex)
         + [SearchEntry(Trim(lines[i]), NormalizeArabicForSearch(Trim(lines[i])), pageIndex,
                        CurrentTitle(lines[..i]), CurrentId(lines[..i], start))]
    ensures CurrentTitle(lines[..i + 1]) == CurrentTitle(lines[..i])
    ensures CurrentId(lines[..i + 1], start) == CurrentId(lines[..i], start)
  {
    PrefixStep(lines, i);
    var before, after := lines[..i], lines[..i + 1];
    assert after[..|after| - 1] == before && Trim(after[|after| - 1]) == Trim(lines[i]);
    assert HeadingTitles(after) == HeadingTitles(before) + [];
  }

  /** A blank line changes nothing. */
  lemma BlankLineStep(lines: seq<string>, i: nat, start: nat, pageIndex: nat)
    requires i < |lines| && Trim(lines[i]) == []
    ensures HeadingTitles(lines[..i + 1]) == HeadingTitles(lines[..i])
    ensures PageHtml(lines[..i + 1], start) == PageHtml(lines[..i], start)
    ensures PageEntries(lines[..i + 1], start, pageIndex) == PageEntries(lines[..i], start, pageIndex)
    ensures CurrentTitle(lines[..i + 1]) == CurrentTitle(lines[..i])
    ensures CurrentId(lines[..i + 1], start) == CurrentId(lines[..i], start)
  {
    PrefixStep(lines, i);
    var before, after := lines[..i], lines[..i + 1];
    assert after[..|after| - 1] == before && Trim(after[|after| - 1]) == [];
    assert !IsHeading([]);
    assert HeadingTitles(after) == HeadingTitles(before) + [];
    assert PageHtml(after, start) == PageHtml(before, start) + "";
    assert PageEntries(after, start, pageIndex) == PageEntries(before, start, pageIndex) + [];
  }

  /** `parsePage`: walks the lines of a page once, building its markup, its chapters and its
      search entries. */
  method ParsePage(text: string, chapterIndexStart: nat, pageIndex: nat) returns (page: ParsedPage)
    ensures page == PageOf(text, chapterIndexStart, pageIndex)
  {
    var lines := Lines(text);
    var html := "";
    var chapters: seq<Chapter> := [];
    var entries: seq<SearchEntry> := [];
    var chapterIndex := chapterIndexStart;
    var currentTitle := BookStartTitle;
    var currentId := "";
    var i := 0;
    while i < |lines|
      invariant 0 <= i <= |lines|
      invariant html == PageHtml(lines[..i], chapterIndexStart)
      invariant chapters == NumberedChapters(HeadingTitles(lines[..i]), chapterIndexStart)
      invariant chapterIndex == chapterIndexStart + |HeadingTitles(lines[..i])|
      invariant entries == PageEntries(lines[..i], chapterIndexStart, pageIndex)
      invariant currentTitle == CurrentTitle(lines[..i])
      invariant currentId == CurrentId(lines[..i], chapterIndexStart)
    {
      var trimmed := Trim(lines[i]);
      if StartsWith(trimmed, "##") {
        HeadingLineStep(lines, i, chapterIndexStart, pageIndex, chapterIndex);
        var title := Trim(trimmed[2..]);
        var id := ChapterId(chapterIndex);
        NumberedChaptersSnoc(HeadingTitles(lines[..i]), title, chapterIndexStart, chapterIndex);
        chapters := chapters + [Chapter(title, id)];
        html := html + HeadingHtml(id, title);
        if title != "" {
          currentTitle := title;
        }
        currentId := id;
        chapterIndex := chapterIndex + 1;
      } else if |trimmed| > 0 {
        ContentLineStep(lines, i, chapterIndexStart, pageIndex);
        html := html + ParagraphHtml(trimmed);
        entries := entries + [SearchEntry(trimmed, NormalizeArabicForSearch(trimmed), pageIndex,
                                          currentTitle, currentId)];
      } else {
        BlankLineStep(lines, i, chapterIndexStart, pageIndex);
      }
      i := i + 1;
    }
    assert lines[..i] == lines;
    page := ParsedPage(html, chapters, entries, chapterIndex);
  }

  // ---------------------------------------------------------------------------------------
  // Parsing a whole book part
  // ---------------------------------------------------------------------------------------

  /** A chapter of the part, with the page its heading is on. */
  datatype BookChapter = BookChapter(title: string, id: string, pageIndex: nat)

  datatype ParsedBook = ParsedBook(pages: seq<string>, pageHtml: seq<string>,
                                   chapters: seq<BookChapter>, searchIndex: seq<SearchEntry>)

  /** The chapter number the page after `pages` starts from. */
  function PageStart(pages: seq<string>): nat {
    if pages == [] then 0
    else PageOf(pages[|pages| - 1], PageStart(pages[..|pages| - 1]), |pages| - 1).nextChapterIndex
  }

  /** The last of `pages`, parsed as `parseBookContent` parses it. */
  function LastPage(pages: seq<string>): ParsedPage
    requires pages != []
  {
    PageOf(pages[|pages| - 1], PageStart(pages[..|pages| - 1]), |pages| - 1)
  }

  /** Page chapters tagged with the page they are on. */
  function OnPage(cs: seq<Chapter>, pageIndex: nat): (r: seq<BookChapter>)
    ensures |r| == |cs|
    ensures forall k :: 0 <= k < |r| ==> r[k] == BookChapter(cs[k].title, cs[k].id, pageIndex)
  {
    seq(|cs|, k requires 0 <= k < |cs| => BookChapter(cs[k].title, cs[k].id, pageIndex))
  }

  function BookPageHtml(pages: seq<string>): seq<string> {
    if pages == [] then [] else BookPageHtml(pages[..|pages| - 1]) + [LastPage(pages).html]
  }

  function BookChapters(pages: seq<string>): seq<BookChapter> {
    if pages == [] then []
    else BookChapters(pages[..|pages| - 1]) + OnPage(LastPage(pages).chapters, |pages| - 1)
  }

  function BookEntries(pages: seq<string>): seq<SearchEntry> {
    if pages == [] then [] else BookEntries(pages[..|pages| - 1]) + LastPage(pages).entries
  }

  /** What `parseBookContent` returns for the text of a part. */
  function BookOf(text: string): ParsedBook {
    var pages := SplitBookPages(text);
    ParsedBook(pages, BookPageHtml(pages), BookChapters(pages), BookEntries(pages))
  }

  /** Appends the chapters of one page, tagged with the page index. */
  method AppendChapters(chapters: seq<BookChapter>, cs: seq<Chapter>, pageIndex: nat)
    returns (r: seq<BookChapter>)
    ensures r == chapters + OnPage(cs, pageIndex)
  {
    r := chapters;
    for j := 0 to |cs|
      invariant r == chapters + OnPage(cs[..j], pageIndex)
    {
      assert OnPage(cs[..j + 1], pageIndex) == OnPage(cs[..j], pageIndex) + [BookChapter(cs[j].title, cs[j].id, pageIndex)];
      r := r + [BookChapter(cs[j].title, cs[j].id, pageIndex)];
    }
    assert cs[..|cs|] == cs;
  }

  /** Appends the search entries of one page. */
  method AppendEntries(index: seq<SearchEntry>, es: seq<SearchEntry>) returns (r: seq<SearchEntry>)
    ensures r == index + es
  {
    r := index;
    for j := 0 to |es|
      invariant r == index + es[..j]
    {
      assert es[..j + 1] == es[..j] + [es[j]];
      r := r + [es[j]];
    }
    assert es[..|es|] == es;
  }

  lemma BookStep(pages: seq<string>, i: nat, page: ParsedPage)
    requires i < |pages| && page == PageOf(pages[i], PageStart(pages[..i]), i)
    ensures PageStart(pages[..i + 1]) == page.nextChapterIndex
    ensures BookPageHtml(pages[..i + 1]) == BookPageHtml(pages[..i]) + [page.html]
    ensures BookChapters(pages[..i + 1]) == BookChapters(pages[..i]) + OnPage(page.chapters, i)
    ensures BookEntries(pages[..i + 1]) == BookEntries(pages[..i]) + page.entries
  {
    PrefixStep(pages, i);
  }

  /** `parseBookContent`: splits a part into pages and parses them in order, numbering
      chapters on across pages. */
  method ParseBookContent(text: string) returns (book: ParsedBook)
    ensures book == BookOf(text)
  {
    var pages := SplitBookPages(text);
    var pageHtml: seq<string> := [];
    var chapters: seq<BookChapter> := [];
    var searchIndex: seq<SearchEntry> := [];
    var chapterIndex := 0;
    for pageIndex := 0 to |pages|
      invariant pageHtml == BookPageHtml(pages[..pageIndex]) && |pageHtml| == pageIndex
      invariant chapters == BookChapters(pages[..pageIndex])
      invariant searchIndex == BookEntries(pages[..pageIndex])
      invariant chapterIndex == PageStart(pages[..pageIndex])
    {
      var parsed := ParsePage(pages[pageIndex], chapterIndex, pageIndex);
      BookStep(pages, pageIndex, parsed);
      pageHtml := pageHtml + [parsed.html];
      chapters := AppendChapters(chapters, parsed.chapters, |pageHtml| - 1);
      searchIndex := AppendEntries(searchIndex, parsed.entries);
      chapterIndex := parsed.nextChapterIndex;
    }
    assert pages[..|pages|] == pages;
    book := ParsedBook(pages, pageHtml, chapters, searchIndex);
  }

  lemma ChapterIdAt(a: nat, b: nat)
    requires a == b
    ensures ChapterId(a) == ChapterId(b)
  {
  }

  /** One page of HTML per page of the part. */
  lemma {:induction false} BookPageHtmlLength(pages: seq<string>)
    ensures |BookPageHtml(pages)| == |pages|
  {
    if pages != [] {
      BookPageHtmlLength(pages[..|pages| - 1]);
    }
  }

  lemma BookOfPageCount(text: string)
    ensures |BookOf(text).pageHtml| == |BookOf(text).pages| == |SplitBookPages(text)| >= 1
  {
    BookPageHtmlLength(SplitBookPages(text));
  }

  /** The last page's chapters carry the numbers after those of the earlier pages. */
  lemma LastPageChapters(pages: seq<string>, k: nat)
    requires pages != []
    requires PageStart(pages[..|pages| - 1]) <= k < PageStart(pages)
    ensures var cs := LastPage(pages).chapters; var s := PageStart(pages[..|pages| - 1]);
      k - s < |cs| && cs[k - s].id == ChapterId(k)
  {
    var s := PageStart(pages[..|pages| - 1]);
    var cs := LastPage(pages).chapters;
    assert |cs| == PageStart(pages) - s;
    assert cs[k - s].id == ChapterId(s + (k - s));
    ChapterIdAt(s + (k - s), k);
  }

  /** Chapters are numbered `chap-0`, `chap-1`, ... across the pages of the part, and each
      is tagged with a page of the part. */
  lemma {:induction false} BookChaptersNumbered(pages: seq<string>)
    ensures var cs := BookChapters(pages);
      |cs| == PageStart(pages)
      && forall k :: 0 <= k < |cs| ==> cs[k].id == ChapterId(k) && cs[k].pageIndex < |pages|
  {
    if pages != [] {
      var init := pages[..|pages| - 1];
      BookChaptersNumbered(init);
      var cs0, cs := BookChapters(init), BookChapters(pages);
      var last := LastPage(pages).chapters;
      assert cs == cs0 + OnPage(last, |pages| - 1);
      assert |last| == PageStart(pages) - PageStart(init);
      forall k | 0 <= k < |cs|
        ensures cs[k].id == ChapterId(k) && cs[k].pageIndex < |pages|
      {
        if k < |cs0| {
          assert cs[k] == cs0[k];
        } else {
          LastPageChapters(pages, k);
        }
      }
    }
  }

  /** Chapters come in page order. */
  lemma {:induction false} BookChaptersInPageOrder(pages: seq<string>)
    ensures var cs := BookChapters(pages);
      forall k, l :: 0 <= k <= l < |cs| ==> cs[k].pageIndex <= cs[l].pageIndex
  {
    if pages != [] {
      var init := pages[..|pages| - 1];
      BookChaptersInPageOrder(init);
      BookChaptersNumbered(init);
      var cs0, cs := BookChapters(init), BookChapters(pages);
      assert cs == cs0 + OnPage(LastPage(pages).chapters, |pages| - 1);
      assert forall k :: |cs0| <= k < |cs| ==> cs[k].pageIndex == |pages| - 1;
      assert forall k :: 0 <= k < |cs0| ==> cs[k] == cs0[k];
    }
  }

  /** No two chapters of a part share an anchor id. */
  lemma BookChapterIdsDistinct(text: string)
    ensures var cs := BookOf(text).chapters;
      forall k, l :: 0 <= k < l < |cs| ==> cs[k].id != cs[l].id
  {
    var cs := BookOf(text).chapters;
    BookChaptersNumbered(SplitBookPages(text));
    forall k, l | 0 <= k < l < |cs|
      ensures cs[k].id != cs[l].id
    {
      ChapterIdInjective(k, l);
    }
  }

  /** What a search entry of a page is: a trimmed, non-blank, non-heading line with its
      normal form. */
  predicate IsEntryLine(e: SearchEntry) {
    && |e.line| > 0 && Trim(e.line) == e.line && !IsHeading(e.line)
    && e.normalizedLine == NormalizeArabicForSearch(e.line)
  }

  /** ... on one of the first `pageCount` pages. */
  predicate ValidEntry(e: SearchEntry, pageCount: nat) {
    IsEntryLine(e) && e.pageIndex < pageCount
  }

  lemma PageEntriesValid(lines: seq<string>, start: nat, pageIndex: nat)
    ensures var es := PageEntries(lines, start, pageIndex);
      forall k :: 0 <= k < |es| ==> ValidEntry(es[k], pageIndex + 1) && es[k].pageIndex == pageIndex
  {
    var es := PageEntries(lines, start, pageIndex);
    PageEntriesAreContentLines(lines, start, pageIndex);
    ContentLinesAreTrimmed(lines);
    forall k | 0 <= k < |es|
      ensures ValidEntry(es[k], pageIndex + 1) && es[k].pageIndex == pageIndex
    {
      assert es[k] in es;
      assert EntryLines(es)[k] == es[k].line;
      assert es[k].line in ContentLines(lines);
    }
  }

  /** Every search entry of the part is a trimmed, non-blank, non-heading line with its
      normal form and the index of a page of the part. */
  lemma {:induction false} BookEntriesValid(pages: seq<string>)
    ensures forall k :: 0 <= k < |BookEntries(pages)| ==> ValidEntry(BookEntries(pages)[k], |pages|)
  {
    if pages != [] {
      var init := pages[..|pages| - 1];
      var n := |pages| - 1;
      BookEntriesValid(init);
      var es0, es := BookEntries(init), BookEntries(pages);
      var last := LastPage(pages).entries;
      assert last == PageEntries(Lines(pages[n]), PageStart(init), n);
      PageEntriesValid(Lines(pages[n]), PageStart(init), n);
      assert es == es0 + last;
      forall k | 0 <= k < |es| ensures ValidEntry(es[k], |pages|) {
        if k < |es0| {
          assert es[k] == es0[k];
        } else {
          assert es[k] == last[k - |es0|];
        }
      }
    }
  }

  /** The search entries come in page order. */
  lemma {:induction false} BookEntriesInPageOrder(pages: seq<string>)
    ensures forall k, l :: 0 <= k <= l < |BookEntries(pages)| ==>
      BookEntries(pages)[k].pageIndex <= BookEntries(pages)[l].pageIndex
  {
    if pages != [] {
      var init := pages[..|pages| - 1];
      var n := |pages| - 1;
      BookEntriesInPageOrder(init);
      BookEntriesValid(init);
      var es0, es := BookEntries(init), BookEntries(pages);
      var last := LastPage(pages).entries;
      assert last == PageEntries(Lines(pages[n]), PageStart(init), n);
      PageEntriesValid(Lines(pages[n]), PageStart(init), n);
      assert es == es0 + last;
      forall k | 0 <= k < |es|
        ensures k < |es0| ==> es[k] == es0[k] && es[k].pageIndex < n
        ensures k >= |es0| ==> es[k].pageIndex == n
      {
        if k < |es0| {
          assert es[k] == es0[k];
          assert ValidEntry(es0[k], n);
        } else {
          assert es[k] == last[k - |es0|];
        }
      }
    }
  }

  /** The chapter id is one of a chapter on the given page. */
  predicate IsChapterOnPage(cs: seq<BookChapter>, id: string, pageIndex: nat) {
    exists k :: 0 <= k < |cs| && cs[k].id == id && cs[k].pageIndex == pageIndex
  }

  lemma ChaptersOnEarlierPages(cs0: seq<BookChapter>, more: seq<BookChapter>, id: string, p: nat)
    requires IsChapterOnPage(cs0, id, p)
    ensures IsChapterOnPage(cs0 + more, id, p)
  {
    var k :| 0 <= k < |cs0| && cs0[k].id == id && cs0[k].pageIndex == p;
    assert (cs0 + more)[k] == cs0[k];
  }

  lemma ChaptersOnLastPage(cs0: seq<BookChapter>, page: seq<Chapter>, id: string, n: nat)
    requires IsChapterOf(page, id)
    ensures IsChapterOnPage(cs0 + OnPage(page, n), id, n)
  {
    var k :| 0 <= k < |page| && page[k].id == id;
    assert (cs0 + OnPage(page, n))[|cs0| + k] == BookChapter(page[k].title, id, n);
  }

  /** The entry is filed under a chapter on its own page, or under the book-start title
      with an empty id. */
  predicate FiledUnder(e: SearchEntry, cs: seq<BookChapter>) {
    && (e.chapterId == "" ==> e.chapterTitle == BookStartTitle)
    && (e.chapterId != "" ==> IsChapterOnPage(cs, e.chapterId, e.pageIndex))
  }

  /** Every search entry of the part is filed under a chapter on its own page, or under the
      book-start title with an empty id when it comes before that page's first heading. */
  lemma {:induction false} EntriesFiledUnderBookChapters(pages: seq<string>)
    ensures forall k :: 0 <= k < |BookEntries(pages)| ==> FiledUnder(BookEntries(pages)[k], BookChapters(pages))
  {
    if pages != [] {
      var init := pages[..|pages| - 1];
      var n := |pages| - 1;
      EntriesFiledUnderBookChapters(init);
      var lines, start := Lines(pages[n]), PageStart(init);
      var page := LastPage(pages);
      assert page.entries == PageEntries(lines, start, n);
      assert page.chapters == NumberedChapters(HeadingTitles(lines), start);
      EntriesFiledUnderPageChapters(lines, start, n);
      PageEntriesValid(lines, start, n);
      var cs0, cs := BookChapters(init), BookChapters(pages);
      var es0, es := BookEntries(init), BookEntries(pages);
      assert cs == cs0 + OnPage(page.chapters, n);
      assert es == es0 + page.entries;
      forall k | 0 <= k < |es| ensures FiledUnder(es[k], cs) {
        if k < |es0| {
          assert es[k] == es0[k];
          if es[k].chapterId != "" {
            ChaptersOnEarlierPages(cs0, OnPage(page.chapters, n), es[k].chapterId, es[k].pageIndex);
          }
        } else {
          var e := page.entries[k - |es0|];
          assert es[k] == e;
          if e.chapterId != "" {
            ChaptersOnLastPage(cs0, page.chapters, e.chapterId, n);
          }
        }
      }
    }
  }
}
