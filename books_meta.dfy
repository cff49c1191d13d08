/** The book record helpers (js/books-meta.js): a book's id, title and part count, the
    `partN` URL parameter for a part index and its parser, and the reader link of a book. */
module BooksMeta {
  import opened Wrappers
  import opened Strings
  import Json
  import SearchParams

  /** `String(id ?? '').trim()`. */
  function NormalizeId(id: Json.Value): (r: string)
    ensures Trim(r) == r
    ensures id.Null? || id.Undefined? ==> r == ""
  {
    TrimIdempotent(Json.StringOrEmpty(id));
    Trim(Json.StringOrEmpty(id))
  }

  /** `getBookId(book)`: the trimmed `id`, empty when there is none. */
  function GetBookId(book: Json.Value): string {
    NormalizeId(Json.Get(book, "id"))
  }

  /** The title given to a book without one: `كتاب` and its one-based position. */
  function FallbackTitle(fallbackIndex: int): string {
    "كتاب " + IntToString(fallbackIndex + 1)
  }

  /** `getBookTitle(book, fallbackIndex)`. */
  function GetBookTitle(book: Json.Value, fallbackIndex: int): string {
    var title := Trim(Json.StringOrEmpty(Json.Get(book, "title")));
    if title != "" then title else FallbackTitle(fallbackIndex)
  }

  /** The fallback title ends in a digit, so it is neither empty nor padded. */
  lemma FallbackTitleUnpadded(fallbackIndex: int)
    ensures FallbackTitle(fallbackIndex) != ""
    ensures Trim(FallbackTitle(fallbackIndex)) == FallbackTitle(fallbackIndex)
  {
    var n := IntToString(fallbackIndex + 1);
    var f := FallbackTitle(fallbackIndex);
    assert IsDigit(n[|n| - 1]);
    assert f[|f| - 1] == n[|n| - 1];
    TrimOfUnpadded(f);
  }

  /** A title is never empty and never padded: the trimmed title when the book has a
      non-blank one, the fallback when it has none. */
  lemma TitleIsTrimmedOrFallback(book: Json.Value, fallbackIndex: int)
    ensures GetBookTitle(book, fallbackIndex) != ""
    ensures Trim(GetBookTitle(book, fallbackIndex)) == GetBookTitle(book, fallbackIndex)
    ensures AllWhitespace(Json.StringOrEmpty(Json.Get(book, "title")))
      ==> GetBookTitle(book, fallbackIndex) == FallbackTitle(fallbackIndex)
    ensures !AllWhitespace(Json.StringOrEmpty(Json.Get(book, "title")))
      ==> GetBookTitle(book, fallbackIndex) == Trim(Json.StringOrEmpty(Json.Get(book, "title")))
  {
    var raw := Json.StringOrEmpty(Json.Get(book, "title"));
    TrimEmptyIff(raw);
    TrimIdempotent(raw);
    FallbackTitleUnpadded(fallbackIndex);
  }

  /** `getBookPartCount(book)`: `parseInt(book.parts, 10)` when that is more than 1, else 1. */
  function GetBookPartCount(book: Json.Value): (n: nat)
    ensures n >= 1
  {
    match Json.ParseInt(Json.Get(book, "parts"))
    case Some(v) => if v > 1 then v else 1
    case None => 1
  }

  predicate HasMultipleParts(book: Json.Value) {
    GetBookPartCount(book) > 1
  }

  /** The part count is the parsed `parts` exactly when that is an integer above 1; an
      integer `parts` counts as itself when above 1 and as 1 otherwise. */
  lemma PartCountIsParsedParts(book: Json.Value, n: int)
    ensures GetBookPartCount(book) > 1
      <==> Json.ParseInt(Json.Get(book, "parts")).Some? && Json.ParseInt(Json.Get(book, "parts")).value > 1
    ensures GetBookPartCount(book) > 1 ==> GetBookPartCount(book) == Json.ParseInt(Json.Get(book, "parts")).value
    ensures Json.Get(book, "parts") == Json.Number(Json.Int(n))
      ==> GetBookPartCount(book) == (if n > 1 then n else 1) && (HasMultipleParts(book) <==> n > 1)
  {
    Json.ParseIntOfInteger(n);
  }

  /** The part index a caller passes, when it is a non-negative integer, else 0. */
  function NormalizePartIndex(partIndex: Json.Value): nat {
    if Json.IsInteger(partIndex) && partIndex.n.i >= 0 then partIndex.n.i else 0
  }

  /** `toPartParam(partIndex)`: `part` and the one-based part number. */
  function ToPartParam(partIndex: Json.Value): string {
    "part" + NatToString(NormalizePartIndex(partIndex) + 1)
  }

  /** `shouldIncludePartInUrl(book, partIndex)`. */
  predicate ShouldIncludePartInUrl(book: Json.Value, partIndex: Json.Value) {
    HasMultipleParts(book) && NormalizePartIndex(partIndex) > 0
  }

  /** `/^part(\d+)$/i`: `part` in any case, then at least one ASCII digit, and nothing else. */
  predicate IsPartToken(t: string) {
    |t| > 4 && Lower(t[..4]) == "part" && AllDigits(t[4..])
  }

  /** The integer `Number(t)` gives for a trimmed text, over the forms modelled: the empty
      text is 0, and an optional sign followed by decimal digits is their value. Every other
      text is taken as giving no integer, which differs from `Number(t)` for exponent,
      hexadecimal and decimal-point forms such as `5.0`. */
  function IntegerOfText(t: string): Option<int> {
    if t == [] then Some(0)
    else
      var u := UnsignedPart(t);
      if u != [] && AllDigits(u) then Some(if t[0] == '-' then -(DigitsValue(u) as int) else DigitsValue(u))
      else None
  }

  /** A positive number as a zero-based part index. */
  function PositiveToIndex(n: int): Option<nat> {
    if n > 0 then var k: nat := n - 1; Some(k) else None
  }

  /** `parsePartParam(partValue)`: the zero-based part index of `partN` or of a plain
      positive number, `None` for anything else. */
  function ParsePartParam(partValue: Json.Value): Option<nat> {
    if partValue.Null? || partValue.Undefined? || partValue == Json.Str("") then None
    else
      var t := Trim(Json.ToJsString(partValue));
      if IsPartToken(t) then PositiveToIndex(DigitsValue(t[4..]))
      else
        match IntegerOfText(t)
        case Some(n) => PositiveToIndex(n)
        case None => None
  }

  lemma LowerOfPart()
    ensures Lower("part") == "part"
  {
  }

  /** `part` in any case followed by digits is read as a part token. */
  lemma ParsePartToken(w: string, d: string)
    requires |w| == 4 && Lower(w) == "part" && AllDigits(d) && d != []
    ensures ParsePartParam(Json.Str(w + d)) == PositiveToIndex(DigitsValue(d))
  {
    var t := w + d;
    assert t[|t| - 1] == d[|d| - 1];
    assert t[0] == w[0] && LowerChar(w[0]) == 'p';
    TrimOfUnpadded(t);
    assert t[..4] == w && t[4..] == d;
  }

  /** Reading a part parameter back gives the part index it was made from. */
  lemma PartParamRoundTrip(i: int)
    requires i >= 0
    ensures ParsePartParam(Json.Str(ToPartParam(Json.Number(Json.Int(i))))) == Some(i)
  {
    var d := NatToString(i + 1);
    assert NormalizePartIndex(Json.Number(Json.Int(i))) == i;
    assert ToPartParam(Json.Number(Json.Int(i))) == "part" + d;
    LowerOfPart();
    ParsePartToken("part", d);
    DigitsValueOfNatToString(i + 1);
  }

  /** Any non-integer or negative index is written as the first part. */
  lemma PartParamOfBadIndex(partIndex: Json.Value)
    requires !(Json.IsInteger(partIndex) && partIndex.n.i >= 0)
    ensures ToPartParam(partIndex) == "part1"
  {
  }

  /** `part` may be written in any case. */
  lemma PartTokenIgnoresCase(w: string, d: string)
    requires |w| == 4 && Lower(w) == "part" && AllDigits(d) && d != []
    ensures ParsePartParam(Json.Str(w + d)) == ParsePartParam(Json.Str("part" + d))
  {
    LowerOfPart();
    ParsePartToken(w, d);
    ParsePartToken("part", d);
  }

  /** Missing and empty values are refused. */
  lemma MissingPartRefused()
    ensures ParsePartParam(Json.Null) == None && ParsePartParam(Json.Undefined) == None
    ensures ParsePartParam(Json.Str("")) == None
  {
  }

  /** `part0`, and `part` followed by any run of zeros, is refused. */
  lemma PartZeroRefused(w: string, d: string)
    requires |w| == 4 && Lower(w) == "part" && AllDigits(d) && d != [] && DigitsValue(d) == 0
    ensures ParsePartParam(Json.Str(w + d)) == None
  {
    ParsePartToken(w, d);
  }

  lemma IntegerOfNatToString(n: nat)
    ensures IntegerOfText(NatToString(n)) == Some(n)
  {
    var d := NatToString(n);
    assert UnsignedPart(d) == d;
    DigitsValueOfNatToString(n);
  }

  lemma IntegerOfIntToString(n: int)
    ensures IntegerOfText(IntToString(n)) == Some(n)
  {
    if n >= 0 {
      IntegerOfNatToString(n);
    } else {
      var d := NatToString(-n);
      assert UnsignedPart("-" + d) == d;
      DigitsValueOfNatToString(-n);
    }
  }

  /** `String(n)` of an integer is unpadded and is no part token. */
  lemma IntToStringIsPlain(n: int)
    ensures Trim(IntToString(n)) == IntToString(n)
    ensures !IsPartToken(IntToString(n))
  {
    var t := IntToString(n);
    var d := NatToString(if n < 0 then -n else n);
    assert t[|t| - 1] == d[|d| - 1];
    TrimOfUnpadded(t);
    assert t[0] == '-' || t[0] == d[0];
    assert |t| > 4 ==> LowerChar(t[0]) != 'p';
  }

  /** A plain number `n` is part `n - 1` when positive and refused otherwise. */
  lemma PlainNumberIsOneBased(n: int)
    ensures ParsePartParam(Json.Number(Json.Int(n))) == PositiveToIndex(n)
    ensures ParsePartParam(Json.Str(IntToString(n))) == PositiveToIndex(n)
  {
    IntToStringIsPlain(n);
    IntegerOfIntToString(n);
    if n == 0 {
      assert Json.Str(IntToString(n)) != Json.Str("");
    }
  }

  /** The query parameters of `buildReaderUrl(book, partIndex)`. */
  function ReaderUrlParams(book: Json.Value, partIndex: Json.Value): SearchParams.Params {
    var params := SearchParams.Set([], "book", GetBookId(book));
    var safePartIndex := Json.Number(Json.Int(NormalizePartIndex(partIndex)));
    if ShouldIncludePartInUrl(book, safePartIndex) then SearchParams.Set(params, "part", ToPartParam(safePartIndex))
    else params
  }

  /** `buildReaderUrl(book, partIndex)`. */
  function BuildReaderUrl(book: Json.Value, partIndex: Json.Value): string {
    if GetBookId(book) == "" then "reader.html"
    else "reader.html?" + SearchParams.ToQueryString(ReaderUrlParams(book, partIndex))
  }

  /** A book without an id links to the bare reader. */
  lemma ReaderUrlOfBlankId(book: Json.Value, partIndex: Json.Value)
    requires GetBookId(book) == ""
    ensures BuildReaderUrl(book, partIndex) == "reader.html"
  {
  }

  /** The reader link always names the book. */
  lemma ReaderUrlNamesBook(book: Json.Value, partIndex: Json.Value)
    ensures SearchParams.Get(ReaderUrlParams(book, partIndex), "book") == Some(GetBookId(book))
  {
    var params := SearchParams.Set([], "book", GetBookId(book));
    SearchParams.GetSet([], "book", GetBookId(book), "part");
    var safePartIndex := Json.Number(Json.Int(NormalizePartIndex(partIndex)));
    SearchParams.GetSet(params, "part", ToPartParam(safePartIndex), "book");
  }

  /** The reader link names a part exactly when the book has several and the index is past
      the first, and that part reads back as the index. */
  lemma ReaderUrlNamesPart(book: Json.Value, partIndex: Json.Value)
    ensures SearchParams.Get(ReaderUrlParams(book, partIndex), "part").Some?
      <==> ShouldIncludePartInUrl(book, partIndex)
    ensures ShouldIncludePartInUrl(book, partIndex)
      ==> ParsePartParam(Json.Str(SearchParams.Get(ReaderUrlParams(book, partIndex), "part").value))
          == Some(NormalizePartIndex(partIndex))
  {
    var params := SearchParams.Set([], "book", GetBookId(book));
    SearchParams.GetSet([], "book", GetBookId(book), "part");
    var safePartIndex := Json.Number(Json.Int(NormalizePartIndex(partIndex)));
    assert NormalizePartIndex(safePartIndex) == NormalizePartIndex(partIndex);
    SearchParams.GetSet(params, "part", ToPartParam(safePartIndex), "book");
    PartParamRoundTrip(NormalizePartIndex(partIndex));
  }
}
