/** The reader's place in its URL (js/reader/url-state.js): the requested part, page and
    chapter read from the query parameters, and the parameters written back for the place
    the reader is showing. */
module UrlState {
  import opened Wrappers
  import opened Strings
  import Json
  import SearchParams
  import BooksMeta

  /** What the URL asks for: a part (or none), a zero-based page and a chapter id. */
  datatype RequestedState = RequestedState(partIndex: Option<nat>, pageIndex: nat, chapterId: string)

  /** The place the reader shows, as `buildReaderUrlForState` reads it. */
  datatype ReaderPlace = ReaderPlace(
    currentBookId: string,
    currentPageIndex: int,
    currentBookPartCount: int,
    currentPartIndex: int,
    currentChapterId: string)

  /** A parameter as `params.get` hands it on: the string, or `null`. */
  function ParamValue(v: Option<string>): Json.Value {
    match v
    case Some(s) => Json.Str(s)
    case None => Json.Null
  }

  /** `parsePageIndex(pageValue)`: a one-based page number made zero-based, 0 for anything
      that is not a number of at least 1. */
  function ParsePageIndex(pageValue: Json.Value): nat {
    match ParseIntPrefix(Json.StringOrEmpty(pageValue))
    case Some(n) => if n >= 1 then n - 1 else 0
    case None => 0
  }

  /** Page `n` of the URL is page `n - 1` of the reader for every integer `n` of at least 1,
      and the first page for every smaller integer. */
  lemma ParsePageIndexOfNumber(n: int)
    ensures ParsePageIndex(Json.Str(IntToString(n))) == if n >= 1 then n - 1 else 0
    ensures ParsePageIndex(Json.Null) == 0
  {
    ParseIntOfIntToString(n);
    assert ParseIntPrefix("") == None by {
      assert TrimStart("") == "";
    }
  }

  /** `parseReaderStateFromSearchParams(params)`. */
  function ParseReaderState(params: SearchParams.Params): RequestedState {
    RequestedState(
      BooksMeta.ParsePartParam(ParamValue(SearchParams.Get(params, "part"))),
      ParsePageIndex(ParamValue(SearchParams.Get(params, "page"))),
      match SearchParams.Get(params, "chapter") case Some(c) => c case None => "")
  }

  /** The `part` parameter written for a place: only when the book has several parts and
      the part is past the first. */
  function PartParamOf(place: ReaderPlace): Option<string> {
    if place.currentBookPartCount > 1 && place.currentPartIndex > 0
    then Some(BooksMeta.ToPartParam(Json.Number(Json.Int(place.currentPartIndex))))
    else None
  }

  /** The `chapter` parameter written for a place: only when it has a chapter. */
  function ChapterParamOf(place: ReaderPlace): Option<string> {
    if place.currentChapterId != "" then Some(place.currentChapterId) else None
  }

  /** `buildReaderUrlForState(state, href)`, on the query parameters of `href`: `None` for
      the `null` it returns without a book. */
  function BuildReaderUrlForState(place: ReaderPlace, current: SearchParams.Params): Option<SearchParams.Params> {
    if place.currentBookId == "" then None
    else
      var p1 := SearchParams.Set(current, "book", place.currentBookId);
      var p2 := SearchParams.Set(p1, "page", IntToString(place.currentPageIndex + 1));
      var p3 := SearchParams.SetOrDelete(p2, "part", PartParamOf(place));
      Some(SearchParams.SetOrDelete(p3, "chapter", ChapterParamOf(place)))
  }

  /** One name read through the four updates of `BuildReaderUrlForState`. */
  lemma BuiltUrlGet(place: ReaderPlace, current: SearchParams.Params, name: string)
    requires place.currentBookId != ""
    ensures SearchParams.Get(BuildReaderUrlForState(place, current).value, name)
      == if name == "chapter" then ChapterParamOf(place)
         else if name == "part" then PartParamOf(place)
         else if name == "page" then Some(IntToString(place.currentPageIndex + 1))
         else if name == "book" then Some(place.currentBookId)
         else SearchParams.Get(current, name)
  {
    var p1 := SearchParams.Set(current, "book", place.currentBookId);
    var p2 := SearchParams.Set(p1, "page", IntToString(place.currentPageIndex + 1));
    var p3 := SearchParams.SetOrDelete(p2, "part", PartParamOf(place));
    SearchParams.GetSetOrDelete(p3, "chapter", ChapterParamOf(place), name);
    SearchParams.GetSetOrDelete(p2, "part", PartParamOf(place), name);
    SearchParams.GetSet(p1, "page", IntToString(place.currentPageIndex + 1), name);
    SearchParams.GetSet(current, "book", place.currentBookId, name);
  }

  /** The written parameters: no URL without a book; otherwise the book, the one-based
      page, the part exactly when the book has several and the part is past the first, and
      the chapter exactly when there is one. Other parameters are kept. */
  lemma BuiltUrlParams(place: ReaderPlace, current: SearchParams.Params, other: string)
    requires other != "book" && other != "page" && other != "part" && other != "chapter"
    ensures BuildReaderUrlForState(place, current).Some? <==> place.currentBookId != ""
    ensures place.currentBookId != "" ==>
      && SearchParams.Get(BuildReaderUrlForState(place, current).value, "book") == Some(place.currentBookId)
      && SearchParams.Get(BuildReaderUrlForState(place, current).value, "page")
         == Some(IntToString(place.currentPageIndex + 1))
      && (SearchParams.Get(BuildReaderUrlForState(place, current).value, "part").Some?
          <==> place.currentBookPartCount > 1 && place.currentPartIndex > 0)
      && (SearchParams.Get(BuildReaderUrlForState(place, current).value, "chapter").Some?
          <==> place.currentChapterId != "")
      && SearchParams.Get(BuildReaderUrlForState(place, current).value, other) == SearchParams.Get(current, other)
  {
    if place.currentBookId != "" {
      BuiltUrlGet(place, current, "book");
      BuiltUrlGet(place, current, "page");
      BuiltUrlGet(place, current, "part");
      BuiltUrlGet(place, current, "chapter");
      BuiltUrlGet(place, current, other);
    }
  }

  /** Reading back the URL written for a place gives its page (the first page for a negative
      index), its chapter, and its part when the URL names one. */
  lemma ReaderUrlRoundTrip(place: ReaderPlace, current: SearchParams.Params)
    requires place.currentBookId != ""
    ensures ParseReaderState(BuildReaderUrlForState(place, current).value) == RequestedState(
      if place.currentBookPartCount > 1 && place.currentPartIndex > 0 then Some(place.currentPartIndex) else None,
      if place.currentPageIndex >= 0 then place.currentPageIndex else 0,
      place.currentChapterId)
  {
    BuiltUrlGet(place, current, "part");
    BuiltUrlGet(place, current, "page");
    BuiltUrlGet(place, current, "chapter");
    ParsePageIndexOfNumber(place.currentPageIndex + 1);
    if place.currentBookPartCount > 1 && place.currentPartIndex > 0 {
      BooksMeta.PartParamRoundTrip(place.currentPartIndex);
    }
  }
}
