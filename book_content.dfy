/** Loading a book's text (js/book-content.js): the file name of each part, and the rule
    that the parts are read up to the first missing one, a missing first part being an
    error. Fetching is a function from the URL to its outcome. */
module BookContent {
  import opened Wrappers
  import opened Strings
  import Json

  /** `getBookPartFileName(partIndex)`: `book.txt` for the first part, `book{n}.txt` for
      the one-based number `n` of any other. */
  function GetBookPartFileName(partIndex: int): string {
    if partIndex == 0 then "book.txt" else "book" + IntToString(partIndex + 1) + ".txt"
  }

  /** What fetching a URL gives: the text of an OK response, a response that is not OK
      (read as `null`), or a request that fails outright. */
  datatype FetchOutcome = Text(text: string) | NotOk | NetworkError

  /** The error `fetchBookParts` raises: the book-load message, or the fetch failure that
      `Promise.all` passes on. */
  datatype LoadError = BookLoadError | FetchFailed

  const BookLoadErrorMessage := "تعذر تحميل نص الكتاب"

  /** `books/{id}/{file}`; percent-encoding of the id is not part of this model. */
  function PartUrl(bookId: string, partIndex: nat): string {
    "books/" + bookId + "/" + GetBookPartFileName(partIndex)
  }

  /** The number of parts requested: `expectedPartCount` when an integer above 1, else 1. */
  function TotalParts(expectedPartCount: Json.Value): (n: nat)
    ensures n >= 1
  {
    if Json.IsInteger(expectedPartCount) && expectedPartCount.n.i > 1 then expectedPartCount.n.i else 1
  }

  /** `findIndex(part => part === null)` over the fetched outcomes. */
  function FirstMissing(parts: seq<FetchOutcome>): (k: int)
    ensures -1 <= k < |parts|
    ensures k >= 0 ==> parts[k].NotOk? && forall j :: 0 <= j < k ==> !parts[j].NotOk?
    ensures k == -1 ==> forall j :: 0 <= j < |parts| ==> !parts[j].NotOk?
  {
    if parts == [] then -1
    else if parts[0].NotOk? then 0
    else
      var k := FirstMissing(parts[1..]);
      if k == -1 then -1 else k + 1
  }

  predicate AnyNetworkError(parts: seq<FetchOutcome>) {
    exists j :: 0 <= j < |parts| && parts[j].NetworkError?
  }

  /** The texts of outcomes that are all texts. */
  function Texts(parts: seq<FetchOutcome>): (ts: seq<string>)
    requires forall j :: 0 <= j < |parts| ==> parts[j].Text?
    ensures |ts| == |parts| && forall j :: 0 <= j < |parts| ==> ts[j] == parts[j].text
  {
    seq(|parts|, j requires 0 <= j < |parts| => parts[j].text)
  }

  /** The outcomes of fetching every requested part. */
  function FetchAll(bookId: string, total: nat, fetch: string -> FetchOutcome): (parts: seq<FetchOutcome>)
    ensures |parts| == total && forall j :: 0 <= j < total ==> parts[j] == fetch(PartUrl(bookId, j))
  {
    seq(total, j requires 0 <= j < total => fetch(PartUrl(bookId, j)))
  }

  /** `fetchBookParts(bookId, expectedPartCount)`. */
  function FetchBookParts(bookId: Json.Value, expectedPartCount: Json.Value, fetch: string -> FetchOutcome)
    : Result<seq<string>, LoadError>
  {
    var id := Trim(Json.StringOrEmpty(bookId));
    if id == "" then Err(BookLoadError)
    else
      var parts := FetchAll(id, TotalParts(expectedPartCount), fetch);
      if AnyNetworkError(parts) then Err(FetchFailed)
      else
        var k := FirstMissing(parts);
        if k == 0 then Err(BookLoadError)
        else if k > 0 then Ok(Texts(parts[..k]))
        else Ok(Texts(parts))
  }

  /** The first part is `book.txt` and part `i` is `book{i + 1}.txt`. */
  lemma PartFileNames(i: nat)
    ensures GetBookPartFileName(0) == "book.txt"
    ensures i > 0 ==> GetBookPartFileName(i) == "book" + NatToString(i + 1) + ".txt"
  {
  }

  /** A blank id, a failed request or a missing first part is an error, and anything else
      succeeds; the texts are then those of the parts before the first missing one (of every
      requested part when none is missing), in part order. */
  lemma LoadsUpToFirstMissingPart(bookId: Json.Value, expectedPartCount: Json.Value, fetch: string -> FetchOutcome)
    ensures var id := Trim(Json.StringOrEmpty(bookId));
      && (id == "" ==> FetchBookParts(bookId, expectedPartCount, fetch) == Err(BookLoadError))
      && (id != "" && fetch(PartUrl(id, 0)).NotOk?
          && (forall j :: 0 <= j < TotalParts(expectedPartCount) ==> !fetch(PartUrl(id, j)).NetworkError?)
          ==> FetchBookParts(bookId, expectedPartCount, fetch) == Err(BookLoadError))
      && (id != "" && (exists j :: 0 <= j < TotalParts(expectedPartCount) && fetch(PartUrl(id, j)).NetworkError?)
          ==> FetchBookParts(bookId, expectedPartCount, fetch) == Err(FetchFailed))
      && (id != "" && !fetch(PartUrl(id, 0)).NotOk?
          && (forall j :: 0 <= j < TotalParts(expectedPartCount) ==> !fetch(PartUrl(id, j)).NetworkError?)
          ==> FetchBookParts(bookId, expectedPartCount, fetch).Ok?)
      && (FetchBookParts(bookId, expectedPartCount, fetch).Ok? ==>
          var ts := FetchBookParts(bookId, expectedPartCount, fetch).value;
          && 1 <= |ts| <= TotalParts(expectedPartCount)
          && (forall j :: 0 <= j < |ts| ==> fetch(PartUrl(id, j)) == Text(ts[j]))
          && (|ts| < TotalParts(expectedPartCount) ==> fetch(PartUrl(id, |ts|)).NotOk?))
  {
    var id := Trim(Json.StringOrEmpty(bookId));
    if id != "" {
      var parts := FetchAll(id, TotalParts(expectedPartCount), fetch);
      if !AnyNetworkError(parts) {
        var k := FirstMissing(parts);
        if k > 0 {
          assert forall j :: 0 <= j < k ==> parts[..k][j] == parts[j];
        }
      }
    }
  }

  /** The number of parts requested is `expectedPartCount` for an integer above 1 and 1
      for anything else. */
  lemma RequestedPartCount(n: int, expectedPartCount: Json.Value)
    ensures TotalParts(Json.Number(Json.Int(n))) == if n > 1 then n else 1
    ensures !Json.IsInteger(expectedPartCount) ==> TotalParts(expectedPartCount) == 1
  {
  }
}
