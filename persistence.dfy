/** The reader's saved state (js/reader/persistence.js): one storage slot holding a JSON
    object with the font size and, per book id, the place last read; reading it never fails,
    a blank id or malformed record reads as nothing, and saving replaces one book's record.
    The choice between the place a URL asks for and the saved place is also here. */
module Persistence {
  import opened Wrappers
  import opened Strings
  import Json
  import BooksMeta
  import opened LocalStorage

  const StorageKey := "shiaLibReaderState"

  /** `normalizeInteger(value, fallback, min)`: the integer `parseInt` reads, unless there is
      none or it is below `min`. */
  function NormalizeInteger(value: Json.Value, fallback: int, min: int): (r: int)
    ensures r == fallback || r >= min
  {
    match Json.ParseInt(value)
    case Some(n) => if n < min then fallback else n
    case None => fallback
  }

  /** An integer at least `min`, as a number or as its decimal text, is kept; a smaller one
      gives the fallback. */
  lemma NormalizeIntegerOfInteger(n: int, fallback: int, min: int)
    ensures NormalizeInteger(Json.Number(Json.Int(n)), fallback, min) == if n >= min then n else fallback
    ensures NormalizeInteger(Json.Str(IntToString(n)), fallback, min) == if n >= min then n else fallback
  {
    Json.ParseIntOfInteger(n);
    ParseIntOfIntToString(n);
  }

  /** A value `parseInt` reads nothing from gives the fallback. */
  lemma NormalizeIntegerOfMissing(fallback: int, min: int)
    ensures NormalizeInteger(Json.Undefined, fallback, min) == fallback
    ensures NormalizeInteger(Json.Null, fallback, min) == fallback
  {
    assert ParseIntPrefix("undefined") == None by {
      assert TrimStart("undefined") == "undefined";
    }
    assert ParseIntPrefix("null") == None by {
      assert TrimStart("null") == "null";
    }
  }

  /** The store object: the font size (`null` or a finite number) and the records by book id. */
  datatype ReaderStore = ReaderStore(fontSize: Json.Value, books: map<string, Json.Value>)

  const EmptyStore := ReaderStore(Json.Null, map[])

  /** `readStore()` on the stored item. */
  function ReadStore(item: StoredItem): (store: ReaderStore)
    ensures store.fontSize.Null? || Json.IsFinite(store.fontSize)
    ensures !item.Parsed? ==> store == EmptyStore
  {
    match item
    case Parsed(v) =>
      if !Json.Truthy(v) || !Json.IsObjectType(v) then EmptyStore
      else
        var books := Json.Get(v, "books");
        var fontSize := Json.Get(v, "fontSize");
        ReaderStore(
          if Json.IsFinite(fontSize) then fontSize else Json.Null,
          if Json.Truthy(books) && books.Obj? then books.fields else map[])
    case _ => EmptyStore
  }

  /** The item `writeStore(store)` leaves in storage. */
  function Encode(store: ReaderStore): StoredItem {
    Parsed(Json.Obj(map["fontSize" := store.fontSize, "books" := Json.Obj(store.books)]))
  }

  /** What is written is read back. */
  lemma ReadAfterWrite(store: ReaderStore)
    requires store.fontSize.Null? || Json.IsFinite(store.fontSize)
    ensures ReadStore(Encode(store)) == store
  {
  }

  /** A saved place as `loadBookProgress` returns it. */
  datatype Progress = Progress(partIndex: int, pageIndex: int, chapterId: string, updatedAt: Option<Json.Num>)

  /** The one name every object inherits an object under: `books.__proto__`, when `books`
      has no own member of that name, is `Object.prototype`, an object with none of the
      record's fields, written here as the empty object. Every other inherited member of
      `Object.prototype` is a function. */
  const ProtoKey := "__proto__"

  /** `store.books[id]`: an own record, `Object.prototype` for `__proto__`, or `undefined`. */
  function BookEntry(books: map<string, Json.Value>, id: string): Json.Value
  {
    if id in books then books[id] else if id == ProtoKey then Json.Obj(map[]) else Json.Undefined
  }

  /** `loadBookProgress(bookId)` on a read store. */
  function LoadBookProgress(store: ReaderStore, bookId: Json.Value): (r: Option<Progress>)
    ensures BooksMeta.NormalizeId(bookId) == "" ==> r.None?
    ensures r.Some? ==> r.value.partIndex >= 0 && r.value.pageIndex >= 0
  {
    var id := BooksMeta.NormalizeId(bookId);
    if id == "" then None else PlaceOf(BookEntry(store.books, id))
  }

  /** The place a book's entry reads as: nothing unless it is an object. */
  function PlaceOf(progress: Json.Value): (r: Option<Progress>)
    ensures r.Some? ==> r.value.partIndex >= 0 && r.value.pageIndex >= 0
  {
    if !Json.Truthy(progress) || !Json.IsObjectType(progress) then None
    else
      var updatedAt := Json.Get(progress, "updatedAt");
      Some(Progress(
        NormalizeInteger(Json.Get(progress, "partIndex"), 0, 0),
        NormalizeInteger(Json.Get(progress, "pageIndex"), 0, 0),
        Json.StringOrEmpty(Json.Get(progress, "chapterId")),
        if Json.IsFinite(updatedAt) then Some(updatedAt.n) else None))
  }

  /** A place as a stored record. */
  function Record(partIndex: int, pageIndex: int, chapterId: string, updatedAt: Json.Value): Json.Value {
    Json.Obj(map[
      "partIndex" := Json.Number(Json.Int(partIndex)),
      "pageIndex" := Json.Number(Json.Int(pageIndex)),
      "chapterId" := Json.Str(chapterId),
      "updatedAt" := updatedAt])
  }

  /** The record `saveBookProgress(bookId, progress)` stores, `now` standing for `Date.now()`. */
  function SavedRecord(progress: Json.Value, now: int): Json.Value {
    Record(
      NormalizeInteger(Json.Get(progress, "partIndex"), 0, 0),
      NormalizeInteger(Json.Get(progress, "pageIndex"), 0, 0),
      Json.StringOrEmpty(Json.Get(progress, "chapterId")),
      Json.Number(Json.Int(now)))
  }

  /** The store after saving a book's place. Assigning to `books.__proto__` when `books` has
      no own member of that name replaces its prototype, which `JSON.stringify` does not
      write, so the stored books stay as they were. */
  function WithProgress(store: ReaderStore, id: string, progress: Json.Value, now: int): ReaderStore
  {
    if id == ProtoKey && id !in store.books then store
    else store.(books := store.books[id := SavedRecord(progress, now)])
  }

  /** The fields of a stored record. */
  lemma RecordFields(partIndex: int, pageIndex: int, chapterId: string, updatedAt: Json.Value)
    ensures Json.Get(Record(partIndex, pageIndex, chapterId, updatedAt), "partIndex") == Json.Number(Json.Int(partIndex))
    ensures Json.Get(Record(partIndex, pageIndex, chapterId, updatedAt), "pageIndex") == Json.Number(Json.Int(pageIndex))
    ensures Json.Get(Record(partIndex, pageIndex, chapterId, updatedAt), "chapterId") == Json.Str(chapterId)
    ensures Json.Get(Record(partIndex, pageIndex, chapterId, updatedAt), "updatedAt") == updatedAt
  {
    assert "partIndex" != "pageIndex" by { assert "partIndex"[2] != "pageIndex"[2]; }
    assert "partIndex" != "chapterId" by { assert "partIndex"[0] != "chapterId"[0]; }
    assert "partIndex" != "updatedAt" by { assert "partIndex"[0] != "updatedAt"[0]; }
    assert "pageIndex" != "chapterId" by { assert "pageIndex"[0] != "chapterId"[0]; }
    assert "pageIndex" != "updatedAt" by { assert "pageIndex"[0] != "updatedAt"[0]; }
    assert "chapterId" != "updatedAt" by { assert "chapterId"[0] != "updatedAt"[0]; }
  }

  /** A stored record with non-negative indices and a numeric time loads as itself. */
  lemma LoadStoredRecord(store: ReaderStore, bookId: Json.Value, p: int, q: int, c: string, now: int)
    requires p >= 0 && q >= 0
    requires BooksMeta.NormalizeId(bookId) != "" && BooksMeta.NormalizeId(bookId) in store.books
    requires store.books[BooksMeta.NormalizeId(bookId)] == Record(p, q, c, Json.Number(Json.Int(now)))
    ensures LoadBookProgress(store, bookId) == Some(Progress(p, q, c, Some(Json.Int(now))))
  {
    var r := Record(p, q, c, Json.Number(Json.Int(now)));
    assert LoadBookProgress(store, bookId) == PlaceOf(r);
    RecordFields(p, q, c, Json.Number(Json.Int(now)));
    NormalizeIntegerOfInteger(p, 0, 0);
    NormalizeIntegerOfInteger(q, 0, 0);
    assert r.Obj? && Json.Truthy(r) && Json.IsObjectType(r);
    var loaded := Progress(NormalizeInteger(Json.Get(r, "partIndex"), 0, 0),
                           NormalizeInteger(Json.Get(r, "pageIndex"), 0, 0),
                           Json.StringOrEmpty(Json.Get(r, "chapterId")),
                           Some(Json.Int(now)));
    assert loaded == Progress(p, q, c, Some(Json.Int(now)));
  }

  /** With no own `__proto__` record, the id `__proto__` loads `Object.prototype` read as a
      place: part 0, page 0, no chapter and no time. */
  lemma ProtoLoadsStartOfBook(store: ReaderStore, bookId: Json.Value)
    requires BooksMeta.NormalizeId(bookId) == ProtoKey && ProtoKey !in store.books
    ensures LoadBookProgress(store, bookId) == Some(Progress(0, 0, "", None))
  {
    assert LoadBookProgress(store, bookId) == PlaceOf(Json.Obj(map[]));
    EmptyObjectPlace();
  }

  /** An object with none of the record's fields reads as the start of the book. */
  lemma EmptyObjectPlace()
    ensures PlaceOf(Json.Obj(map[])) == Some(Progress(0, 0, "", None))
  {
    var proto := Json.Obj(map[]);
    var p := NormalizeInteger(Json.Get(proto, "partIndex"), 0, 0);
    var q := NormalizeInteger(Json.Get(proto, "pageIndex"), 0, 0);
    assert PlaceOf(proto) == Some(Progress(p, q, Json.StringOrEmpty(Json.Get(proto, "chapterId")), None));
    NormalizeIntegerOfMissing(0, 0);
  }

  /** A saved place is loaded back with its indices normalised, its chapter as text and the
      save time; only under the id `__proto__`, with no own record of that name, is nothing
      stored, and the load gives the place `Object.prototype` reads as. */
  lemma LoadAfterSave(store: ReaderStore, bookId: Json.Value, progress: Json.Value, now: int)
    requires BooksMeta.NormalizeId(bookId) != ""
    ensures var id := BooksMeta.NormalizeId(bookId);
      LoadBookProgress(WithProgress(store, id, progress, now), bookId)
      == if id == ProtoKey && ProtoKey !in store.books then Some(Progress(0, 0, "", None))
         else Some(Progress(
           NormalizeInteger(Json.Get(progress, "partIndex"), 0, 0),
           NormalizeInteger(Json.Get(progress, "pageIndex"), 0, 0),
           Json.StringOrEmpty(Json.Get(progress, "chapterId")),
           Some(Json.Int(now))))
  {
    var id := BooksMeta.NormalizeId(bookId);
    if id == ProtoKey && ProtoKey !in store.books {
      ProtoLoadsStartOfBook(store, bookId);
    } else {
      var p := NormalizeInteger(Json.Get(progress, "partIndex"), 0, 0);
      var q := NormalizeInteger(Json.Get(progress, "pageIndex"), 0, 0);
      var c := Json.StringOrEmpty(Json.Get(progress, "chapterId"));
      LoadStoredRecord(WithProgress(store, id, progress, now), bookId, p, q, c, now);
    }
  }

  /** Saving one book's place leaves every other book's place as it was. */
  lemma SaveLeavesOtherBooks(store: ReaderStore, id: string, progress: Json.Value, now: int, other: Json.Value)
    requires BooksMeta.NormalizeId(other) != id
    ensures LoadBookProgress(WithProgress(store, id, progress, now), other) == LoadBookProgress(store, other)
  {
  }

  /** The storage slot; `writable` says whether `setItem` succeeds (it throws when storage is
      full or disabled). */
  class Storage {
    var item: StoredItem
    var writable: bool

    constructor(item: StoredItem, writable: bool)
      ensures this.item == item && this.writable == writable
    {
      this.item := item;
      this.writable := writable;
    }

    /** `writeStore(store)`: `false` instead of an exception when storage refuses. */
    method WriteStore(store: ReaderStore) returns (ok: bool)
      modifies this
      ensures ok == writable && writable == old(writable)
      ensures item == if ok then Encode(store) else old(item)
    {
      if !writable {
        return false;
      }
      item := Encode(store);
      return true;
    }

    /** `saveBookProgress(bookId, progress, now)`: nothing is written for a blank id or a
        progress that is not an object; otherwise only the book's record is replaced. */
    method SaveBookProgress(bookId: Json.Value, progress: Json.Value, now: int) returns (ok: bool)
      modifies this
      ensures writable == old(writable)
      ensures ok <==> (BooksMeta.NormalizeId(bookId) != "" && Json.Truthy(progress)
                       && Json.IsObjectType(progress) && writable)
      ensures ok ==> ReadStore(item) == WithProgress(old(ReadStore(item)), BooksMeta.NormalizeId(bookId), progress, now)
      ensures !ok ==> item == old(item)
    {
      var id := BooksMeta.NormalizeId(bookId);
      if id == "" || !Json.Truthy(progress) || !Json.IsObjectType(progress) {
        return false;
      }
      var store := ReadStore(item);
      var next := WithProgress(store, id, progress, now);
      ReadAfterWrite(next);
      ok := WriteStore(next);
    }
  }

  /** The place the reader opens at. */
  datatype Resolved = Resolved(partIndex: int, pageIndex: int, chapterId: string)

  /** `requestedState?.flag === true`. */
  predicate Explicit(requestedState: Json.Value, flag: string) {
    Json.Get(requestedState, flag) == Json.Bool(true)
  }

  predicate AnyExplicit(requestedState: Json.Value) {
    Explicit(requestedState, "hasExplicitPart") || Explicit(requestedState, "hasExplicitPage")
      || Explicit(requestedState, "hasExplicitChapter")
  }

  /** An integer field, or 0. */
  function IntegerOr0(v: Json.Value): int {
    if Json.IsInteger(v) then v.n.i else 0
  }

  /** `resolveRequestedState(requestedState, storedState)`. */
  function ResolveRequestedState(requestedState: Json.Value, storedState: Json.Value): Resolved {
    if AnyExplicit(requestedState) || !Json.Truthy(storedState) then
      Resolved(
        if Explicit(requestedState, "hasExplicitPart") then IntegerOr0(Json.Get(requestedState, "partIndex")) else 0,
        if Explicit(requestedState, "hasExplicitPage") then IntegerOr0(Json.Get(requestedState, "pageIndex")) else 0,
        if Explicit(requestedState, "hasExplicitChapter")
        then Json.StringOrEmpty(Json.Get(requestedState, "chapterId")) else "")
    else
      Resolved(
        IntegerOr0(Json.Get(storedState, "partIndex")),
        IntegerOr0(Json.Get(storedState, "pageIndex")),
        Json.StringOrEmpty(Json.Get(storedState, "chapterId")))
  }

  /** Once the URL names any of part, page or chapter, the saved place is ignored, and each
      field is the requested one only when the URL named it. */
  lemma ExplicitRequestIgnoresStored(requestedState: Json.Value, stored1: Json.Value, stored2: Json.Value)
    requires AnyExplicit(requestedState)
    ensures ResolveRequestedState(requestedState, stored1) == ResolveRequestedState(requestedState, stored2)
    ensures !Explicit(requestedState, "hasExplicitPart") ==> ResolveRequestedState(requestedState, stored1).partIndex == 0
    ensures !Explicit(requestedState, "hasExplicitPage") ==> ResolveRequestedState(requestedState, stored1).pageIndex == 0
    ensures !Explicit(requestedState, "hasExplicitChapter") ==> ResolveRequestedState(requestedState, stored1).chapterId == ""
    ensures Explicit(requestedState, "hasExplicitPart") ==>
      ResolveRequestedState(requestedState, stored1).partIndex == IntegerOr0(Json.Get(requestedState, "partIndex"))
    ensures Explicit(requestedState, "hasExplicitPage") ==>
      ResolveRequestedState(requestedState, stored1).pageIndex == IntegerOr0(Json.Get(requestedState, "pageIndex"))
    ensures Explicit(requestedState, "hasExplicitChapter") ==>
      ResolveRequestedState(requestedState, stored1).chapterId == Json.StringOrEmpty(Json.Get(requestedState, "chapterId"))
  {
  }

  /** Without a saved place and without an explicit request the reader opens at the start. */
  lemma NothingRequestedNothingStored(requestedState: Json.Value, storedState: Json.Value)
    requires !AnyExplicit(requestedState) && !Json.Truthy(storedState)
    ensures ResolveRequestedState(requestedState, storedState) == Resolved(0, 0, "")
  {
  }

  /** The object `loadBookProgress` hands the reader for a loaded place. */
  function ProgressObject(p: Progress): Json.Value {
    Record(p.partIndex, p.pageIndex, p.chapterId,
           match p.updatedAt case Some(n) => Json.Number(n) case None => Json.Null)
  }

  /** With nothing explicit in the URL, the reader resumes exactly at a loaded place. */
  lemma ResumesAtLoadedPlace(requestedState: Json.Value, p: Progress)
    requires !AnyExplicit(requestedState)
    ensures ResolveRequestedState(requestedState, ProgressObject(p)) == Resolved(p.partIndex, p.pageIndex, p.chapterId)
  {
    RecordFields(p.partIndex, p.pageIndex, p.chapterId,
                 match p.updatedAt case Some(n) => Json.Number(n) case None => Json.Null);
  }
}
