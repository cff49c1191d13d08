/** Match excerpts for the library-wide search (js/search/excerpt.js): a window of the
    line centred on the first match of the normalised query, widened by a radius on both
    sides and marked with an ellipsis where it cuts the line. The file's own copies of
    `buildNormalizedIndexMap` and `splitBookPages` are `ReaderParser.BuildNormalizedIndexMap`
    and, with the `?? ''` coercion, `PagesOf` below. */
module Excerpt {
  import opened Strings
  import Json
  import opened ReaderParser

  const DefaultRadius := 120

  const Ellipsis := "…"

  /** `splitBookPages` of excerpt.js, which takes any value: `null` and `undefined` give a
      single empty page. */
  function PagesOf(text: Json.Value): (pages: seq<string>)
    ensures |pages| >= 1
  {
    if !Contains(Json.ToJsString(text), PageSeparator) then [Json.StringOrEmpty(text)]
    else SplitBookPages(Json.StringOrEmpty(text))
  }

  /** On a string `PagesOf` is the reader's page split, and on `null` or `undefined` it is
      one empty page. */
  lemma PagesOfString(text: Json.Value)
    ensures text.Str? ==> PagesOf(text) == SplitBookPages(text.s)
    ensures text.Null? || text.Undefined? ==> PagesOf(text) == [""]
  {
    if text.Null? || text.Undefined? {
      assert !OccursAt(Json.ToJsString(text), PageSeparator, 0);
      IndexOfIsFirst(Json.ToJsString(text), PageSeparator, 0);
    }
  }

  /** `options.radius` when it is a positive integer, 120 otherwise. */
  function Radius(option: Json.Value): (r: nat)
    ensures r >= 1
    ensures r == DefaultRadius || (Json.IsInteger(option) && r == option.n.i)
  {
    if Json.IsInteger(option) && option.n.i > 0 then option.n.i else DefaultRadius
  }

  /** The radius is the requested one exactly when that is a positive integer (or happens to
      be 120). */
  lemma RadiusIsRequestedIffPositiveInteger(option: Json.Value)
    ensures Json.IsInteger(option) && option.n.i > 0 ==> Radius(option) == option.n.i
    ensures !(Json.IsInteger(option) && option.n.i > 0) ==> Radius(option) == DefaultRadius
  {
  }

  /** The excerpt window: its ends in the normalised text and in the source. */
  datatype Window = Window(startNormalized: int, endNormalized: int, startOriginal: int, endOriginal: int)

  function Max(a: int, b: int): int { if a < b then b else a }

  function Min(a: int, b: int): int { if a < b then a else b }

  /** The window around a match of length `qlen` at `queryIndex` of the normalised text.
      `indexMap[startNormalized] ?? 0` gives 0 past the end of the map; an end past the map
      would give the source length, and an empty window ends at offset 1. */
  function MatchWindow(m: NormalizedMapping, queryIndex: int, qlen: nat, radius: nat): Window {
    var sN := Max(0, queryIndex - radius);
    var eN := Min(|m.normalized|, queryIndex + qlen + radius);
    var sO := if sN < |m.indexMap| then m.indexMap[sN] else 0;
    var eO := if eN > 0 then (if eN - 1 < |m.indexMap| then m.indexMap[eN - 1] + 1 else |m.source|) else 1;
    Window(sN, eN, sO, eO)
  }

  /** The ellipsis when the window cuts the line on that side. */
  function Mark(cut: bool): string {
    if cut then Ellipsis else ""
  }

  /** `createMatchExcerpt(line, normalizedQuery, { radius })`. */
  function CreateMatchExcerpt(line: Json.Value, normalizedQuery: string, radiusOption: Json.Value): string {
    var radius := Radius(radiusOption);
    var source := Trim(Json.StringOrEmpty(line));
    if source == [] then ""
    else if |source| <= radius * 2 then source
    else LongLineExcerpt(source, normalizedQuery, radius)
  }

  /** The excerpt of a trimmed line longer than twice the radius: its start when the query
      does not occur, otherwise the window around the first match. */
  function LongLineExcerpt(source: string, normalizedQuery: string, radius: nat): string
    requires |source| > radius * 2
  {
    var m := MappingOf(source);
    var queryIndex := IndexOf(m.normalized, normalizedQuery, 0);
    if queryIndex == -1 then Trim(source[..radius * 2]) + Ellipsis
    else
      var w := MatchWindow(m, queryIndex, |normalizedQuery|, radius);
      Mark(w.startOriginal > 0) + Trim(Slice(m.source, w.startOriginal, w.endOriginal))
        + Mark(w.endOriginal < |m.source|)
  }

  /** A blank line has an empty excerpt, and a line of at most twice the radius is its own
      excerpt, trimmed. */
  lemma ShortLineIsItsOwnExcerpt(line: Json.Value, normalizedQuery: string, radiusOption: Json.Value)
    ensures var source := Trim(Json.StringOrEmpty(line));
      && (source == [] ==> CreateMatchExcerpt(line, normalizedQuery, radiusOption) == "")
      && (|source| <= 2 * Radius(radiusOption) ==> CreateMatchExcerpt(line, normalizedQuery, radiusOption) == source)
  {
  }

  /** `LongLineExcerpt` when the query does not occur: the line's first `2 * radius`
      characters, trimmed, and an ellipsis. */
  lemma UnmatchedLongLine(source: string, normalizedQuery: string, radius: nat)
    requires |source| > radius * 2
    requires !Contains(NormalizeArabicForSearch(source), normalizedQuery)
    ensures LongLineExcerpt(source, normalizedQuery, radius) == Trim(source[..2 * radius]) + Ellipsis
  {
    assert MappingOf(source).normalized == NormalizeArabicForSearch(source);
  }

  /** Without a match the excerpt is the start of the line, twice the radius long, trimmed,
      with an ellipsis. */
  lemma UnmatchedLineExcerpt(line: Json.Value, normalizedQuery: string, radiusOption: Json.Value)
    requires |Trim(Json.StringOrEmpty(line))| > 2 * Radius(radiusOption)
    requires !Contains(NormalizeArabicForSearch(Trim(Json.StringOrEmpty(line))), normalizedQuery)
    ensures CreateMatchExcerpt(line, normalizedQuery, radiusOption)
      == Trim(Trim(Json.StringOrEmpty(line))[..2 * Radius(radiusOption)]) + Ellipsis
  {
    UnmatchedLongLine(Trim(Json.StringOrEmpty(line)), normalizedQuery, Radius(radiusOption));
  }

  /** Around a match, the window takes in the whole match in the normalised text, and in the
      source it is a non-empty stretch that holds every character the match came from. */
  lemma WindowCoversMatch(m: NormalizedMapping, queryIndex: int, q: string, radius: nat)
    requires ValidMapping(m) && |m.source| > 0 && radius >= 1
    requires OccursAt(m.normalized, q, queryIndex)
    ensures var w := MatchWindow(m, queryIndex, |q|, radius);
      && 0 <= w.startNormalized <= queryIndex
      && w.endNormalized >= Min(|m.normalized|, queryIndex + |q|)
      && 0 <= w.startOriginal < w.endOriginal <= |m.source|
      && forall j :: queryIndex <= j < queryIndex + |q| ==>
           w.startOriginal <= m.indexMap[j] < w.endOriginal
  {
    var w := MatchWindow(m, queryIndex, |q|, radius);
    if |m.normalized| > 0 {
      assert w.startNormalized < w.endNormalized <= |m.indexMap|;
      assert w.startNormalized == w.endNormalized - 1
        || m.indexMap[w.startNormalized] < m.indexMap[w.endNormalized - 1];
    }
  }

  /** `LongLineExcerpt` when the query occurs: the window's stretch of the line, trimmed and
      marked. */
  lemma MatchedLongLine(source: string, normalizedQuery: string, radius: nat)
    requires |source| > radius * 2 && radius >= 1
    requires Contains(NormalizeArabicForSearch(source), normalizedQuery)
    ensures var m := MappingOf(source);
      var w := MatchWindow(m, IndexOf(m.normalized, normalizedQuery, 0), |normalizedQuery|, radius);
      && 0 <= w.startOriginal < w.endOriginal <= |source|
      && LongLineExcerpt(source, normalizedQuery, radius)
         == Mark(w.startOriginal > 0) + Trim(source[w.startOriginal..w.endOriginal]) + Mark(w.endOriginal < |source|)
  {
    var m := MappingOf(source);
    MappingOfIsValid(source);
    var queryIndex := IndexOf(m.normalized, normalizedQuery, 0);
    WindowCoversMatch(m, queryIndex, normalizedQuery, radius);
  }

  /** When the query occurs, the excerpt is the window's stretch of the line, trimmed, with
      an ellipsis before it exactly when the window starts after the line's start and after
      it exactly when the window ends before the line's end. */
  lemma MatchedLineExcerpt(line: Json.Value, normalizedQuery: string, radiusOption: Json.Value)
    requires |Trim(Json.StringOrEmpty(line))| > 2 * Radius(radiusOption)
    requires Contains(NormalizeArabicForSearch(Trim(Json.StringOrEmpty(line))), normalizedQuery)
    ensures var source := Trim(Json.StringOrEmpty(line));
      var m := MappingOf(source);
      var w := MatchWindow(m, IndexOf(m.normalized, normalizedQuery, 0), |normalizedQuery|, Radius(radiusOption));
      && 0 <= w.startOriginal < w.endOriginal <= |source|
      && CreateMatchExcerpt(line, normalizedQuery, radiusOption)
         == Mark(w.startOriginal > 0) + Trim(source[w.startOriginal..w.endOriginal]) + Mark(w.endOriginal < |source|)
  {
    MatchedLongLine(Trim(Json.StringOrEmpty(line)), normalizedQuery, Radius(radiusOption));
  }
}
