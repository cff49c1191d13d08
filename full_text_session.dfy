/** The library-wide full-text search session (js/search/full-text-session.js): a cursor
    over books, then parts, then pages, then lines, that fetches one part at a time, keeps
    the lines whose normal form contains the query, and works in chunks of a few pages that
    stop as soon as the search is replaced by another. The helpers a session is handed
    (`fetchBookPart`, `normalizeLine`, `splitPartToPages`, `buildMatch`) are parameters,
    and so are `getBookId` and `getBookPartCount`, which the search page takes from
    js/books-meta.js. */
module FullTextSession {
  import opened Wrappers
  import opened Strings
  import Json

  /** What `await fetchBookPart(bookId, partIndex)` gives: the part's text, `null` for a
      missing part, or an exception. */
  datatype FetchOutcome = Text(text: string) | Missing | Throws

  /** The record `buildMatch` is called with. */
  datatype MatchInput = MatchInput(book: Json.Value, partIndex: nat, pageIndex: nat, line: string, normalizedQuery: string)

  /** What `buildMatch(input)` gives: a value, or an exception. */
  datatype BuildOutcome = Built(value: Json.Value) | Raised

  /** The helpers and limits of a session (`isTokenActive` is the `Token` below). */
  datatype Deps = Deps(
    getBookId: Json.Value -> string,
    getBookPartCount: Json.Value -> int,
    fetchBookPart: (string, nat) -> FetchOutcome,
    normalizeLine: string -> string,
    splitPartToPages: string -> seq<string>,
    buildMatch: MatchInput -> BuildOutcome,
    maxStoredMatches: nat,
    pageScanChunkSize: nat)

  /** The helpers, applied. */
  function BookId(deps: Deps, book: Json.Value): string { deps.getBookId(book) }
  function PartCount(deps: Deps, book: Json.Value): int { deps.getBookPartCount(book) }
  function FetchPart(deps: Deps, bookId: string, partIndex: nat): FetchOutcome { deps.fetchBookPart(bookId, partIndex) }
  function SplitPages(deps: Deps, text: string): seq<string> { deps.splitPartToPages(text) }
  function NormalizeLine(deps: Deps, line: string): string { deps.normalizeLine(line) }
  function BuildMatch(deps: Deps, input: MatchInput): BuildOutcome { deps.buildMatch(input) }

  /** `isTokenActive()`: whether the search a session belongs to is still the current one.
      `schedule(n)` is the answer the `n`-th question gets. */
  class Token {
    const schedule: nat -> bool
    var polls: nat

    constructor(schedule: nat -> bool)
      ensures this.schedule == schedule && polls == 0
    {
      this.schedule := schedule;
      polls := 0;
    }

    /** A search that has been replaced never becomes current again. */
    ghost predicate Monotone() {
      forall i: nat, j: nat :: i <= j && !schedule(i) ==> !schedule(j)
    }

    method IsActive() returns (active: bool)
      modifies this
      ensures polls == old(polls) + 1
      ensures active == schedule(old(polls))
    {
      active := schedule(polls);
      polls := polls + 1;
    }
  }

  /** Where a line is: book, part, page and line index. */
  datatype Pos = Pos(book: nat, part: nat, page: nat, line: nat)

  /** Reading order: book, then part, then page, then line. */
  predicate Before(a: Pos, b: Pos) {
    || a.book < b.book
    || (a.book == b.book && a.part < b.part)
    || (a.book == b.book && a.part == b.part && a.page < b.page)
    || (a.book == b.book && a.part == b.part && a.page == b.page && a.line < b.line)
  }

  lemma BeforeTransitive(a: Pos, b: Pos, c: Pos)
    requires Before(a, b) && Before(b, c)
    ensures Before(a, c)
  {
  }

  /** Where a kept match was found and what `buildMatch` was given for it. */
  datatype Source = Source(pos: Pos, input: MatchInput)

  /** Each source comes before the next one. */
  ghost predicate Ordered(sources: seq<Source>) {
    forall i :: 0 < i < |sources| ==> Before(sources[i - 1].pos, sources[i].pos)
  }

  /** So the sources are in strict reading order. */
  lemma {:induction false} OrderedStrictly(sources: seq<Source>, i: nat, j: nat)
    requires Ordered(sources) && i < j < |sources|
    ensures Before(sources[i].pos, sources[j].pos)
    decreases j - i
  {
    if i + 1 < j {
      OrderedStrictly(sources, i + 1, j);
      BeforeTransitive(sources[i].pos, sources[i + 1].pos, sources[j].pos);
    }
  }

  /** Each source names its book by its position in `books`. */
  ghost predicate FromBooks(sources: seq<Source>, books: seq<Json.Value>) {
    forall k :: 0 <= k < |sources| ==>
      sources[k].pos.book < |books| && sources[k].input.book == books[sources[k].pos.book]
  }

  /** Every source comes before `c`. */
  ghost predicate AllBefore(sources: seq<Source>, c: Pos) {
    forall k :: 0 <= k < |sources| ==> Before(sources[k].pos, c)
  }

  lemma AllBeforeLater(sources: seq<Source>, c: Pos, d: Pos)
    requires AllBefore(sources, c) && (c == d || Before(c, d))
    ensures AllBefore(sources, d)
  {
    forall k | 0 <= k < |sources|
      ensures Before(sources[k].pos, d)
    {
      if c != d {
        BeforeTransitive(sources[k].pos, c, d);
      }
    }
  }

  /** A source after all the others, and before `next`, keeps the order. */
  lemma AppendSource(sources: seq<Source>, s: Source, next: Pos)
    requires Ordered(sources) && AllBefore(sources, s.pos) && Before(s.pos, next)
    ensures Ordered(sources + [s])
    ensures AllBefore(sources + [s], next)
  {
    AllBeforeLater(sources, s.pos, next);
  }

  /** A match the session may keep: it was built from a non-empty trimmed line whose normal
      form contains the query, for a book with an id, and it has an excerpt. */
  predicate Kept(s: Source, m: Json.Value, deps: Deps, query: string) {
    && s.input.line != ""
    && Trim(s.input.line) == s.input.line
    && Contains(NormalizeLine(deps, s.input.line), query)
    && s.input.normalizedQuery == query
    && s.input.partIndex == s.pos.part
    && s.input.pageIndex == s.pos.page
    && BookId(deps, s.input.book) != ""
    && BuildMatch(deps, s.input) == Built(m)
    && Json.Truthy(m)
    && Json.Truthy(Json.Get(m, "excerpt"))
  }

  /** A match kept from line `s.pos.line` of `pageText`, page `at.page` of part `at.part`
      of book `book`, which is book `at.book` of the session. */
  ghost predicate FoundOn(s: Source, m: Json.Value, pageText: string, deps: Deps, query: string, book: Json.Value, at: Pos) {
    && Kept(s, m, deps, query)
    && s.input.book == book
    && s.pos.book == at.book && s.pos.part == at.part && s.pos.page == at.page
    && s.pos.line < |Lines(pageText)|
    && Trim(Lines(pageText)[s.pos.line]) == s.input.line
  }

  /** The line of the match is line `pos.line` of page `pos.page` of the fetched part
      `pos.part` of its book, trimmed. */
  predicate LineAt(deps: Deps, s: Source) {
    var fetched := FetchPart(deps, BookId(deps, s.input.book), s.pos.part);
    && fetched.Text?
    && s.pos.page < |SplitPages(deps, fetched.text)|
    && s.pos.line < |Lines(SplitPages(deps, fetched.text)[s.pos.page])|
    && Trim(Lines(SplitPages(deps, fetched.text)[s.pos.page])[s.pos.line]) == s.input.line
  }

  /** The matches from `n` on were kept and found where their sources say, and were only
      added while fewer than `targetCount` and fewer than `maxStoredMatches` were held. */
  ghost predicate NewSince(matches: seq<Json.Value>, sources: seq<Source>, n: nat, targetCount: int, deps: Deps, query: string) {
    && (|matches| == n || (|matches| <= targetCount && |matches| <= deps.maxStoredMatches))
    && |sources| == |matches|
    && forall k :: n <= k < |matches| ==> Kept(sources[k], matches[k], deps, query) && LineAt(deps, sources[k])
  }

  /** New matches since `n`, then new ones since `mid`, are new matches since `n`. */
  lemma NewSinceTrans(m1: seq<Json.Value>, s1: seq<Source>, m2: seq<Json.Value>, s2: seq<Source>,
                      n: nat, targetCount: int, deps: Deps, query: string)
    requires n <= |m1| && NewSince(m1, s1, n, targetCount, deps, query)
    requires NewSince(m2, s2, |m1|, targetCount, deps, query)
    requires m1 <= m2 && s1 <= s2
    ensures NewSince(m2, s2, n, targetCount, deps, query)
  {
  }

  /** Work left, compared lexicographically: books, parts of the current book, pages of the
      loaded part. */
  datatype Measure = Measure(books: nat, parts: nat, pages: nat)

  predicate LexLess(a: Measure, b: Measure) {
    || a.books < b.books
    || (a.books == b.books && a.parts < b.parts)
    || (a.books == b.books && a.parts == b.parts && a.pages < b.pages)
  }

  lemma LexLessTransitive(a: Measure, b: Measure, c: Measure)
    requires LexLess(a, b) && LexLess(b, c)
    ensures LexLess(a, c)
  {
  }

  /** One turn of the loop of `prepareNextPart`. */
  datatype PartStep = NextBook | NextPart | FetchFailed | Cancelled | Loaded

  /** The cursor of a session: the next part to fetch, the loaded part (`activePages` is
      `None` when there is none) and its current page, and the fetches that threw. */
  datatype CursorState = CursorState(
    bookIndex: nat, partIndex: nat,
    activeBook: Json.Value, activeBookPartIndex: nat, activePages: Option<seq<string>>, activePageIndex: nat,
    partialFailures: nat)

  /** The next line to read: the first line of the current page of the loaded part, or of
      the next part to fetch. */
  function CursorOf(st: CursorState): Pos {
    if st.activePages.Some? then Pos(st.bookIndex, st.activeBookPartIndex, st.activePageIndex, 0)
    else Pos(st.bookIndex, st.partIndex, 0, 0)
  }

  /** The cursor's bookkeeping: within the books and the current book's parts, and a
      loaded part is the one before `partIndex` of the current book, which has an id. */
  ghost predicate ShapeOf(books: seq<Json.Value>, deps: Deps, st: CursorState) {
    && st.bookIndex <= |books|
    && (st.bookIndex < |books| ==> st.partIndex == 0 || st.partIndex <= PartCount(deps, books[st.bookIndex]))
    && (st.activePages.Some? ==>
        && st.bookIndex < |books|
        && st.activeBook == books[st.bookIndex]
        && BookId(deps, st.activeBook) != ""
        && st.partIndex == st.activeBookPartIndex + 1
        && st.activePageIndex <= |st.activePages.value|)
  }

  /** The loaded pages are those of the loaded part, as the helpers give them. */
  ghost predicate LoadedFetched(deps: Deps, st: CursorState) {
    st.activePages.Some? ==>
      && FetchPart(deps, BookId(deps, st.activeBook), st.activeBookPartIndex).Text?
      && st.activePages.value == SplitPages(deps, FetchPart(deps, BookId(deps, st.activeBook), st.activeBookPartIndex).text)
  }

  /** The work left: books, parts of the current book, pages of the loaded part. */
  function MeasureOf(books: seq<Json.Value>, deps: Deps, st: CursorState): Measure {
    var booksLeft := if st.bookIndex <= |books| then |books| - st.bookIndex else 0;
    var partsLeft :=
      if st.bookIndex < |books| && st.partIndex <= PartCount(deps, books[st.bookIndex])
      then PartCount(deps, books[st.bookIndex]) - st.partIndex else 0;
    var pagesLeft :=
      if st.activePages.Some? && st.activePageIndex <= |st.activePages.value|
      then |st.activePages.value| - st.activePageIndex + 1 else 0;
    Measure(booksLeft, partsLeft, pagesLeft)
  }

  /** One turn of the loop of `prepareNextPart`: what it did, whether it moved on to the
      next book, the part index and failure count it left, and whether it asked
      `isTokenActive()`. */
  datatype Turn = Turn(step: PartStep, nextBook: bool, partIndex: nat, partialFailures: nat, asked: bool)

  /** A turn on `book` with the cursor at part `partIndex`; `active` is the answer the token
      gives if it is asked. */
  function PartTurn(book: Json.Value, partIndex: nat, partialFailures: nat, deps: Deps, active: bool): Turn {
    var bookId := BookId(deps, book);
    if bookId == "" || partIndex >= PartCount(deps, book) then
      Turn(NextBook, true, 0, partialFailures, false)
    else
      match FetchPart(deps, bookId, partIndex)
      case Throws => Turn(FetchFailed, false, partIndex + 1, partialFailures + 1, false)
      case Missing =>
        if !active then Turn(Cancelled, false, partIndex + 1, partialFailures, true)
        else if partIndex == 0 then Turn(NextBook, true, 0, partialFailures, true)
        else Turn(NextPart, false, partIndex + 1, partialFailures, true)
      case Text(_) =>
        if !active then Turn(Cancelled, false, partIndex + 1, partialFailures, true)
        else Turn(Loaded, false, partIndex + 1, partialFailures, true)
  }

  /** A turn moves on to the next book at part 0, or to the next part of the same book
      within its part count. */
  lemma TurnMovesForward(book: Json.Value, partIndex: nat, partialFailures: nat, deps: Deps, active: bool)
    ensures PartTurn(book, partIndex, partialFailures, deps, active).nextBook ==>
      PartTurn(book, partIndex, partialFailures, deps, active).partIndex == 0
    ensures !PartTurn(book, partIndex, partialFailures, deps, active).nextBook ==>
      && PartTurn(book, partIndex, partialFailures, deps, active).partIndex == partIndex + 1
      && partIndex + 1 <= PartCount(deps, book)
  {
  }

  /** Exactly the fetches that throw are counted, one each, and the cursor is then already
      on the next part; the token is asked after every fetch that does not throw, and
      never otherwise. */
  lemma TurnCountsFailures(book: Json.Value, partIndex: nat, partialFailures: nat, deps: Deps, active: bool)
    ensures PartTurn(book, partIndex, partialFailures, deps, active).partialFailures
      == if PartTurn(book, partIndex, partialFailures, deps, active).step == FetchFailed
         then partialFailures + 1 else partialFailures
    ensures PartTurn(book, partIndex, partialFailures, deps, active).step == FetchFailed <==>
      && BookId(deps, book) != "" && partIndex < PartCount(deps, book)
      && FetchPart(deps, BookId(deps, book), partIndex).Throws?
    ensures PartTurn(book, partIndex, partialFailures, deps, active).asked <==>
      && BookId(deps, book) != "" && partIndex < PartCount(deps, book)
      && !FetchPart(deps, BookId(deps, book), partIndex).Throws?
  {
  }

  /** A book is passed over only when it has no id, no part left, or a missing first
      part; a missing later part moves on to the next part of the same book. */
  lemma TurnSkipsBook(book: Json.Value, partIndex: nat, partialFailures: nat, deps: Deps, active: bool)
    ensures PartTurn(book, partIndex, partialFailures, deps, active).nextBook <==>
      || BookId(deps, book) == ""
      || partIndex >= PartCount(deps, book)
      || (active && partIndex == 0 && FetchPart(deps, BookId(deps, book), partIndex).Missing?)
    ensures PartTurn(book, partIndex, partialFailures, deps, active).step == NextPart <==>
      && BookId(deps, book) != "" && partIndex < PartCount(deps, book)
      && active && partIndex > 0 && FetchPart(deps, BookId(deps, book), partIndex).Missing?
  {
  }

  /** A part is loaded exactly when it was fetched and the search is still current when
      asked; a cancelled search is noticed only after a fetch that did not throw. */
  lemma TurnLoads(book: Json.Value, partIndex: nat, partialFailures: nat, deps: Deps, active: bool)
    ensures PartTurn(book, partIndex, partialFailures, deps, active).step == Loaded <==>
      && BookId(deps, book) != "" && partIndex < PartCount(deps, book)
      && FetchPart(deps, BookId(deps, book), partIndex).Text? && active
    ensures PartTurn(book, partIndex, partialFailures, deps, active).step == Cancelled <==>
      PartTurn(book, partIndex, partialFailures, deps, active).asked && !active
  {
  }

  /** The matches are in reading order, and until the search is over all of them come
      before the cursor. */
  ghost predicate ValidOf(books: seq<Json.Value>, deps: Deps, st: CursorState, sources: seq<Source>,
                          matches: seq<Json.Value>, completed: bool) {
    && ShapeOf(books, deps, st) && |sources| == |matches|
    && FromBooks(sources, books) && Ordered(sources) && (completed || AllBefore(sources, CursorOf(st)))
  }

  /** The cursor after one turn of the loop of `prepareNextPart` from `st`, on the
      current book; `active` is the answer the token gives if it is asked. */
  function AfterTurn(books: seq<Json.Value>, deps: Deps, st: CursorState, active: bool): CursorState
    requires st.bookIndex < |books|
  {
    var book := books[st.bookIndex];
    var turn := PartTurn(book, st.partIndex, st.partialFailures, deps, active);
    var fetched := FetchPart(deps, BookId(deps, book), st.partIndex);
    if turn.step == Loaded && fetched.Text? then
      st.(partIndex := turn.partIndex, activeBook := book, activeBookPartIndex := st.partIndex,
          activePages := Some(SplitPages(deps, fetched.text)), activePageIndex := 0)
    else
      st.(bookIndex := if turn.nextBook then st.bookIndex + 1 else st.bookIndex,
          partIndex := turn.partIndex, partialFailures := turn.partialFailures)
  }

  /** A turn from a cursor with no part loaded keeps the bookkeeping, leaves less work,
      never moves the cursor back, and loads a part, fetched as the helpers give it, exactly
      when the turn is `Loaded`. */
  lemma TurnKeepsShape(books: seq<Json.Value>, deps: Deps, st: CursorState, active: bool)
    requires ShapeOf(books, deps, st) && st.activePages.None? && st.bookIndex < |books|
    ensures ShapeOf(books, deps, AfterTurn(books, deps, st, active))
    ensures LoadedFetched(deps, AfterTurn(books, deps, st, active))
    ensures LexLess(MeasureOf(books, deps, AfterTurn(books, deps, st, active)), MeasureOf(books, deps, st))
    ensures CursorOf(AfterTurn(books, deps, st, active)) == CursorOf(st)
      || Before(CursorOf(st), CursorOf(AfterTurn(books, deps, st, active)))
    ensures AfterTurn(books, deps, st, active).activePages.Some?
      <==> PartTurn(books[st.bookIndex], st.partIndex, st.partialFailures, deps, active).step == Loaded
    ensures AfterTurn(books, deps, st, active).activePages.Some? ==> AfterTurn(books, deps, st, active).activePageIndex == 0
    ensures AfterTurn(books, deps, st, active).partialFailures >= st.partialFailures
  {
  }

  /** A search session (`createSearchSession`): `activeBook` is `Null` and `activePages` is
      `None` when no part is loaded; `error` says whether an exception ended the search. */
  class Session {
    const books: seq<Json.Value>
    const normalizedQuery: string
    var matches: seq<Json.Value>
    /** Where each match was found, position for position. */
    ghost var sources: seq<Source>
    var loading: bool
    var completed: bool
    var reachedMatchCap: bool
    var partialFailures: nat
    var bookIndex: nat
    var partIndex: nat
    var activeBook: Json.Value
    var activeBookPartIndex: nat
    var activePages: Option<seq<string>>
    var activePageIndex: nat
    var error: bool
    /** The pages scanned so far; the source does not keep this count. */
    ghost var pagesRead: nat

    /** The session's cursor. */
    function State(): CursorState
      reads this`bookIndex, this`partIndex, this`activeBook, this`activeBookPartIndex, this`activePages, this`activePageIndex, this`partialFailures
    {
      CursorState(bookIndex, partIndex, activeBook, activeBookPartIndex, activePages, activePageIndex, partialFailures)
    }

    function Cursor(): Pos
      reads this`bookIndex, this`partIndex, this`activeBook, this`activeBookPartIndex, this`activePages, this`activePageIndex, this`partialFailures
    {
      CursorOf(State())
    }

    ghost predicate Shape(deps: Deps)
      reads this`bookIndex, this`partIndex, this`activeBook, this`activeBookPartIndex, this`activePages, this`activePageIndex, this`partialFailures, this`sources, this`matches
    {
      ShapeOf(books, deps, State()) && |sources| == |matches|
    }

    /** The matches are in reading order, and until the search is over all of them come
        before the cursor. */
    ghost predicate Valid(deps: Deps)
      reads this`bookIndex, this`partIndex, this`activeBook, this`activeBookPartIndex, this`activePages, this`activePageIndex, this`partialFailures, this`sources, this`matches, this`completed
    {
      ValidOf(books, deps, State(), sources, matches, completed)
    }

    ghost predicate PagesFetched(deps: Deps)
      reads this`bookIndex, this`partIndex, this`activeBook, this`activeBookPartIndex, this`activePages, this`activePageIndex, this`partialFailures
    {
      LoadedFetched(deps, State())
    }

    function Progress(deps: Deps): Measure
      reads this`bookIndex, this`partIndex, this`activeBook, this`activeBookPartIndex, this`activePages, this`activePageIndex, this`partialFailures
    {
      MeasureOf(books, deps, State())
    }

    /** The matches from `n` on were kept under `deps`, were found where their sources say,
        and were only added while fewer than both limits were held. */
    ghost predicate NewMatches(n: nat, targetCount: int, deps: Deps)
      reads this`matches, this`sources
    {
      NewSince(matches, sources, n, targetCount, deps, normalizedQuery)
    }

    /** `createSearchSession(books, normalizedQuery)`. */
    constructor(books: seq<Json.Value>, normalizedQuery: string)
      ensures this.books == books && this.normalizedQuery == normalizedQuery
      ensures matches == [] && !loading && !completed && !reachedMatchCap && partialFailures == 0
      ensures bookIndex == 0 && partIndex == 0
      ensures activeBook == Json.Null && activeBookPartIndex == 0 && activePages == None && activePageIndex == 0
      ensures !error && pagesRead == 0
      ensures forall deps :: Valid(deps)
    {
      this.books := books;
      this.normalizedQuery := normalizedQuery;
      matches := [];
      sources := [];
      loading := false;
      completed := false;
      reachedMatchCap := false;
      partialFailures := 0;
      bookIndex := 0;
      partIndex := 0;
      activeBook := Json.Null;
      activeBookPartIndex := 0;
      activePages := None;
      activePageIndex := 0;
      error := false;
      pagesRead := 0;
    }

    /** `resetActivePartState(session)`: no part is loaded any more. */
    method ResetActivePartState()
      modifies this`activePages, this`activeBook, this`activeBookPartIndex, this`activePageIndex
      ensures activePages == None && activeBook == Json.Null && activeBookPartIndex == 0 && activePageIndex == 0
    {
      activePages := None;
      activeBook := Json.Null;
      activeBookPartIndex := 0;
      activePageIndex := 0;
    }

    /** One turn of the loop of `prepareNextPart`: a book without an id or without parts
        left is passed over; otherwise the cursor moves to the next part before the fetch, a
        fetch that throws is counted, a cancelled search stops, a missing first part passes
        over the book while a missing later part only moves on to the next part, and a
        fetched part is loaded at its first page. */
    method NextPartStep(deps: Deps, token: Token) returns (step: PartStep)
      requires activePages.None? && bookIndex < |books|
      modifies this`bookIndex, this`partIndex, this`partialFailures, this`activeBook, this`activeBookPartIndex,
        this`activePages, this`activePageIndex, token
      ensures State() == AfterTurn(books, deps, old(State()), token.schedule(old(token.polls)))
      ensures step == PartTurn(books[old(bookIndex)], old(partIndex), old(partialFailures), deps, token.schedule(old(token.polls))).step
      ensures token.polls == if PartTurn(books[old(bookIndex)], old(partIndex), old(partialFailures), deps, token.schedule(old(token.polls))).asked
        then old(token.polls) + 1 else old(token.polls)
    {
      var book := books[bookIndex];
      var bookId := BookId(deps, book);
      if bookId == "" || partIndex >= PartCount(deps, book) {
        bookIndex := bookIndex + 1;
        partIndex := 0;
        return NextBook;
      }
      var currentPartIndex := partIndex;
      partIndex := partIndex + 1;
      var partText := FetchPart(deps, bookId, currentPartIndex);
      if partText.Throws? {
        partialFailures := partialFailures + 1;
        return FetchFailed;
      }
      var active := token.IsActive();
      if !active {
        return Cancelled;
      }
      if partText.Missing? {
        if currentPartIndex == 0 {
          bookIndex := bookIndex + 1;
          partIndex := 0;
          return NextBook;
        }
        return NextPart;
      }
      activeBook := book;
      activeBookPartIndex := currentPartIndex;
      activePages := Some(SplitPages(deps, partText.text));
      activePageIndex := 0;
      return Loaded;
    }

    /** `prepareNextPart(session, deps)`: turns of the loop above until a part is loaded
        (true), the books run out or the search is cancelled (false). */
    method PrepareNextPart(deps: Deps, token: Token) returns (hasPart: bool)
      requires ShapeOf(books, deps, State()) && activePages.None?
      modifies this`bookIndex, this`partIndex, this`partialFailures, this`activeBook, this`activeBookPartIndex,
        this`activePages, this`activePageIndex, token
      ensures ShapeOf(books, deps, State()) && LoadedFetched(deps, State())
      ensures CursorOf(State()) == CursorOf(old(State())) || Before(CursorOf(old(State())), CursorOf(State()))
      ensures hasPart <==> activePages.Some?
      ensures hasPart ==> activePageIndex == 0 && LexLess(MeasureOf(books, deps, State()), MeasureOf(books, deps, old(State())))
      ensures !hasPart ==> bookIndex == |books| || (token.polls > old(token.polls) && !token.schedule(token.polls - 1))
      ensures partialFailures >= old(partialFailures) && token.polls >= old(token.polls)
    {
      ghost var start := MeasureOf(books, deps, State());
      ghost var first := CursorOf(State());
      while bookIndex < |books|
        invariant ShapeOf(books, deps, State()) && activePages.None?
        invariant CursorOf(State()) == first || Before(first, CursorOf(State()))
        invariant partialFailures >= old(partialFailures) && token.polls >= old(token.polls)
        invariant MeasureOf(books, deps, State()) == start || LexLess(MeasureOf(books, deps, State()), start)
        decreases MeasureOf(books, deps, State()).books, MeasureOf(books, deps, State()).parts
      {
        ghost var st := State();
        ghost var active := token.schedule(token.polls);
        ghost var next := AfterTurn(books, deps, st, active);
        TurnKeepsShape(books, deps, st, active);
        TurnLoads(books[bookIndex], partIndex, partialFailures, deps, active);
        var step := NextPartStep(deps, token);
        assert State() == next;
        if MeasureOf(books, deps, st) != start {
          LexLessTransitive(MeasureOf(books, deps, next), MeasureOf(books, deps, st), start);
        }
        if CursorOf(st) != first && CursorOf(next) != CursorOf(st) {
          BeforeTransitive(first, CursorOf(st), CursorOf(next));
        }
        if step == Cancelled {
          return false;
        }
        if step == Loaded {
          return true;
        }
      }
      return false;
    }

    /** The match found on line `s.pos.line` of `pageText`, the current page. */
    ghost predicate FoundOnPage(s: Source, m: Json.Value, pageText: string, deps: Deps)
      reads this`activeBook, this`bookIndex, this`activeBookPartIndex, this`activePageIndex
    {
      FoundOn(s, m, pageText, deps, normalizedQuery, activeBook, Pos(bookIndex, activeBookPartIndex, activePageIndex, 0))
    }

    /** `session.matches.push(match)`, with where it was found. */
    method Keep(built: Json.Value, ghost source: Source, ghost next: Pos)
      requires FromBooks(sources, books) && Ordered(sources)
      requires AllBefore(sources, source.pos) && Before(source.pos, next)
      requires source.pos.book < |books| && source.input.book == books[source.pos.book]
      modifies this`matches, this`sources
      ensures matches == old(matches) + [built] && sources == old(sources) + [source]
      ensures FromBooks(sources, books) && Ordered(sources) && AllBefore(sources, next)
    {
      AppendSource(sources, source, next);
      matches := matches + [built];
      sources := sources + [source];
    }

    /** One line of `scanPageForMatches`: a line that is not blank once trimmed and whose
        normal form contains the query, of a truthy book, is given to `buildMatch`; the
        match is kept when it is truthy, has an excerpt and the book has an id. `raised`
        says that `buildMatch` threw. */
    method ScanLine(pageText: string, i: nat, deps: Deps, book: Json.Value, part: nat, page: nat, ghost at: Pos)
      returns (raised: bool)
      requires |sources| == |matches| && FromBooks(sources, books) && Ordered(sources)
      requires AllBefore(sources, at.(line := i))
      requires at.book < |books| && book == books[at.book] && at.part == part && at.page == page
      requires i < |Lines(pageText)|
      modifies this`matches, this`sources
      ensures |sources| == |matches| && FromBooks(sources, books) && Ordered(sources)
      ensures AllBefore(sources, if raised then at.(line := i) else at.(line := i + 1))
      ensures old(matches) <= matches && old(sources) <= sources && |matches| <= |old(matches)| + 1
      ensures raised ==> matches == old(matches)
      ensures forall k :: |old(matches)| <= k < |matches| ==>
        FoundOn(sources[k], matches[k], pageText, deps, normalizedQuery, book, at)
    {
      var trimmed := Trim(Lines(pageText)[i]);
      if trimmed != "" && Contains(NormalizeLine(deps, trimmed), normalizedQuery) && Json.Truthy(book) {
        var input := MatchInput(book, part, page, trimmed, normalizedQuery);
        var outcome := BuildMatch(deps, input);
        if outcome.Raised? {
          return true;
        }
        var built := outcome.value;
        if Json.Truthy(built) && BookId(deps, book) != "" && Json.Truthy(Json.Get(built, "excerpt")) {
          TrimIdempotent(Lines(pageText)[i]);
          Keep(built, Source(at.(line := i), input), at.(line := i + 1));
          return false;
        }
      }
      AllBeforeLater(sources, at.(line := i), at.(line := i + 1));
      return false;
    }

    /** `scanPageForMatches(session, pageText, targetCount, deps)`: appends, in line order,
        a match for each line of the page that is kept, while fewer than `targetCount` and
        fewer than `maxStoredMatches` matches are held; `raised` says that `buildMatch`
        threw. */
    method ScanPageForMatches(pageText: string, targetCount: int, deps: Deps) returns (raised: bool)
      requires Shape(deps) && FromBooks(sources, books) && Ordered(sources)
      requires activePages.Some? && AllBefore(sources, Cursor())
      modifies this`matches, this`sources
      ensures Shape(deps) && FromBooks(sources, books) && Ordered(sources)
      ensures AllBefore(sources, Pos(bookIndex, activeBookPartIndex, activePageIndex + 1, 0))
      ensures old(matches) <= matches && old(sources) <= sources
      ensures |matches| == |old(matches)| || (|matches| <= targetCount && |matches| <= deps.maxStoredMatches)
      ensures forall k :: |old(matches)| <= k < |matches| ==> FoundOnPage(sources[k], matches[k], pageText, deps)
    {
      var lines := Lines(pageText);
      ghost var at := Pos(bookIndex, activeBookPartIndex, activePageIndex, 0);
      raised := false;
      var i := 0;
      while i < |lines|
        invariant 0 <= i <= |lines|
        invariant |sources| == |matches| && FromBooks(sources, books) && Ordered(sources)
        invariant AllBefore(sources, at.(line := i))
        invariant old(matches) <= matches && old(sources) <= sources
        invariant |matches| == |old(matches)| || (|matches| <= targetCount && |matches| <= deps.maxStoredMatches)
        invariant forall k :: |old(matches)| <= k < |matches| ==>
          FoundOn(sources[k], matches[k], pageText, deps, normalizedQuery, activeBook, at)
      {
        if |matches| >= targetCount || |matches| >= deps.maxStoredMatches {
          break;
        }
        raised := ScanLine(pageText, i, deps, activeBook, activeBookPartIndex, activePageIndex, at);
        if raised {
          AllBeforeLater(sources, at.(line := i), at.(page := at.page + 1));
          return;
        }
        i := i + 1;
      }
      AllBeforeLater(sources, at.(line := i), at.(page := at.page + 1));
    }

    /** Leaves a part whose pages are all read: the cursor moves to the next part to fetch. */
    method LeavePart(deps: Deps)
      requires Valid(deps) && activePages.Some? && activePageIndex >= |activePages.value|
      modifies this`activePages, this`activeBook, this`activeBookPartIndex, this`activePageIndex
      ensures Valid(deps) && activePages.None?
      ensures LexLess(Progress(deps), old(Progress(deps)))
    {
      ghost var cursor := Cursor();
      ResetActivePartState();
      if !completed {
        AllBeforeLater(sources, cursor, Cursor());
      }
    }

    /** `scanPageForMatches` on the current page, then `activePageIndex += 1` unless
        `buildMatch` threw. */
    method ScanActivePage(targetCount: int, deps: Deps) returns (raised: bool)
      requires Valid(deps) && PagesFetched(deps) && !completed
      requires activePages.Some? && activePageIndex < |activePages.value|
      modifies this`matches, this`sources, this`activePageIndex, this`pagesRead
      ensures Shape(deps) && FromBooks(sources, books) && Ordered(sources)
      ensures !raised ==> Valid(deps) && LexLess(Progress(deps), old(Progress(deps)))
      ensures activePageIndex == if raised then old(activePageIndex) else old(activePageIndex) + 1
      ensures pagesRead == if raised then old(pagesRead) else old(pagesRead) + 1
      ensures old(matches) <= matches && old(sources) <= sources
      ensures NewMatches(|old(matches)|, targetCount, deps)
    {
      var pageText := activePages.value[activePageIndex];
      raised := ScanPageForMatches(pageText, targetCount, deps);
      if !raised {
        activePageIndex := activePageIndex + 1;
        pagesRead := pagesRead + 1;
      }
    }

    /** The part of a turn of the loop of `scanSessionChunk` with a part loaded: drop it
        when no page is left, or scan its current page (`scanned`) unless `buildMatch` threw
        (`raised`), dropping the part after its last page. */
    method ReadActivePart(targetCount: int, deps: Deps) returns (scanned: bool, raised: bool)
      requires Valid(deps) && PagesFetched(deps) && !completed && activePages.Some?
      modifies this`matches, this`sources, this`activePages, this`activeBook, this`activeBookPartIndex, this`activePageIndex,
        this`pagesRead
      ensures Shape(deps) && FromBooks(sources, books) && Ordered(sources) && PagesFetched(deps)
      ensures !raised ==> Valid(deps) && LexLess(Progress(deps), old(Progress(deps)))
      ensures old(matches) <= matches && old(sources) <= sources
      ensures NewMatches(|old(matches)|, targetCount, deps)
      ensures raised ==> !scanned
      ensures pagesRead == if scanned then old(pagesRead) + 1 else old(pagesRead)
    {
      if activePageIndex >= |activePages.value| {
        LeavePart(deps);
        return false, false;
      }
      raised := ScanActivePage(targetCount, deps);
      if raised {
        return false, true;
      }
      if activePageIndex >= |activePages.value| {
        ghost var read := Progress(deps);
        LeavePart(deps);
        LexLessTransitive(Progress(deps), read, old(Progress(deps)));
      }
      return true, false;
    }

    /** One turn of the loop of `scanSessionChunk`: load a part when none is loaded (and
        `stop` when there is none, the search being complete if the token is still active),
        drop a part with no page left, or scan its current page (`scanned`) unless
        `buildMatch` threw (`raised`). */
    method ChunkIteration(targetCount: int, deps: Deps, token: Token) returns (scanned: bool, stop: bool, raised: bool)
      requires Valid(deps) && PagesFetched(deps) && token.Monotone() && !completed
      modifies this`matches, this`sources, this`completed, this`bookIndex, this`partIndex, this`partialFailures,
        this`activeBook, this`activeBookPartIndex, this`activePages, this`activePageIndex, this`pagesRead, token
      ensures Shape(deps) && FromBooks(sources, books) && Ordered(sources) && PagesFetched(deps)
      ensures !raised ==> Valid(deps)
      ensures old(matches) <= matches && old(sources) <= sources
      ensures NewMatches(|old(matches)|, targetCount, deps)
      ensures token.polls >= old(token.polls)
      ensures stop ==> !scanned && !raised && matches == old(matches) && activePages.None?
      ensures stop ==> token.polls > old(token.polls) && (completed <==> token.schedule(token.polls - 1))
      ensures completed ==> stop && bookIndex == |books|
      ensures raised ==> !scanned
      ensures pagesRead == if scanned then old(pagesRead) + 1 else old(pagesRead)
      ensures !stop && !raised ==> LexLess(Progress(deps), old(Progress(deps)))
    {
      if activePages.None? {
        ghost var cursor := Cursor();
        var hasPart := PrepareNextPart(deps, token);
        AllBeforeLater(sources, cursor, Cursor());
        if !hasPart {
          var active := token.IsActive();
          if active {
            completed := true;
          }
          return false, true, false;
        }
      }
      ghost var loaded := Progress(deps);
      stop := false;
      scanned, raised := ReadActivePart(targetCount, deps);
      if !raised && loaded != old(Progress(deps)) {
        LexLessTransitive(Progress(deps), loaded, old(Progress(deps)));
      }
    }

    /** The loop of `scanSessionChunk`: turns while the token is active, the search is not
        complete, fewer than `targetCount` and fewer than `maxStoredMatches` matches are
        held and fewer than `pageScanChunkSize` pages were scanned. `raised` says that
        `buildMatch` threw, which leaves the loop at once. */
    method ChunkTurns(targetCount: int, deps: Deps, token: Token) returns (pagesProcessed: nat, raised: bool)
      requires Valid(deps) && PagesFetched(deps) && token.Monotone()
      modifies this`matches, this`sources, this`completed, this`bookIndex, this`partIndex, this`partialFailures,
        this`activeBook, this`activeBookPartIndex, this`activePages, this`activePageIndex, this`pagesRead, token
      ensures Shape(deps) && FromBooks(sources, books) && Ordered(sources) && PagesFetched(deps)
      ensures !raised ==> Valid(deps)
      ensures old(matches) <= matches && old(sources) <= sources
      ensures NewMatches(|old(matches)|, targetCount, deps)
      ensures pagesProcessed <= deps.pageScanChunkSize && pagesRead == old(pagesRead) + pagesProcessed
      ensures token.polls > old(token.polls)
      ensures !token.schedule(old(token.polls)) ==>
        !raised && pagesProcessed == 0 && pagesRead == old(pagesRead) && matches == old(matches)
      ensures completed ==> old(completed) || (bookIndex == |books| && activePages.None? && token.schedule(token.polls - 1))
      ensures !raised && !completed ==>
        || !token.schedule(token.polls - 1) || |matches| >= targetCount || |matches| >= deps.maxStoredMatches
        || pagesProcessed == deps.pageScanChunkSize
      ensures (&& !raised && !completed && !old(completed) && |old(matches)| < targetCount
               && |old(matches)| < deps.maxStoredMatches && deps.pageScanChunkSize > 0 && token.schedule(token.polls - 1))
        ==> LexLess(Progress(deps), old(Progress(deps)))
    {
      pagesProcessed := 0;
      raised := false;
      ghost var iterated := false;
      var active := token.IsActive();
      while active && !completed && |matches| < targetCount && |matches| < deps.maxStoredMatches
        && pagesProcessed < deps.pageScanChunkSize
        invariant ValidOf(books, deps, State(), sources, matches, completed) && LoadedFetched(deps, State())
        invariant old(matches) <= matches && old(sources) <= sources
        invariant NewSince(matches, sources, |old(matches)|, targetCount, deps, normalizedQuery)
        invariant pagesProcessed <= deps.pageScanChunkSize && pagesRead == old(pagesRead) + pagesProcessed
        invariant token.polls > old(token.polls) && active == token.schedule(token.polls - 1)
        invariant completed == old(completed)
        invariant iterated ==> token.schedule(old(token.polls)) && LexLess(MeasureOf(books, deps, State()), old(Progress(deps)))
        invariant !iterated ==>
          token.polls == old(token.polls) + 1 && pagesProcessed == 0 && matches == old(matches) && MeasureOf(books, deps, State()) == old(Progress(deps))
        decreases deps.pageScanChunkSize - pagesProcessed,
          MeasureOf(books, deps, State()).books, MeasureOf(books, deps, State()).parts, MeasureOf(books, deps, State()).pages
      {
        ghost var before := Progress(deps);
        ghost var seen := matches;
        ghost var found := sources;
        var scanned, stop, r := ChunkIteration(targetCount, deps, token);
        NewSinceTrans(seen, found, matches, sources, |old(matches)|, targetCount, deps, normalizedQuery);
        if r {
          return pagesProcessed, true;
        }
        if stop {
          break;
        }
        if iterated {
          LexLessTransitive(Progress(deps), before, old(Progress(deps)));
        }
        iterated := true;
        if scanned {
          pagesProcessed := pagesProcessed + 1;
        }
        active := token.IsActive();
      }
    }

    /** `scanSessionChunk(session, targetCount, deps)`: the turns above, then the search is
        complete, at the cap, once `maxStoredMatches` matches are held; an exception from
        `buildMatch` (`raised`) skips that check. Yielding to the browser changes nothing
        here. */
    method ScanSessionChunk(targetCount: int, deps: Deps, token: Token) returns (pagesProcessed: nat, raised: bool)
      requires Valid(deps) && PagesFetched(deps) && token.Monotone()
      modifies this`matches, this`sources, this`completed, this`reachedMatchCap, this`bookIndex, this`partIndex,
        this`partialFailures, this`activeBook, this`activeBookPartIndex, this`activePages, this`activePageIndex,
        this`pagesRead, token
      ensures Shape(deps) && FromBooks(sources, books) && Ordered(sources) && PagesFetched(deps)
      ensures !raised ==> Valid(deps)
      ensures old(matches) <= matches && old(sources) <= sources
      ensures NewMatches(|old(matches)|, targetCount, deps)
      ensures pagesProcessed <= deps.pageScanChunkSize && pagesRead == old(pagesRead) + pagesProcessed
      ensures token.polls > old(token.polls)
      ensures !token.schedule(old(token.polls)) ==>
        !raised && pagesProcessed == 0 && pagesRead == old(pagesRead) && matches == old(matches)
      ensures !raised && |matches| >= deps.maxStoredMatches ==> completed && reachedMatchCap
      ensures reachedMatchCap != old(reachedMatchCap) ==> !raised && |matches| >= deps.maxStoredMatches
      ensures completed && !old(completed) ==>
        || |matches| >= deps.maxStoredMatches
        || (bookIndex == |books| && activePages.None? && token.schedule(token.polls - 1))
      ensures !raised && !completed ==>
        !token.schedule(token.polls - 1) || |matches| >= targetCount || pagesProcessed == deps.pageScanChunkSize
      ensures (&& !raised && !completed && !old(completed) && |old(matches)| < targetCount
               && |old(matches)| < deps.maxStoredMatches && deps.pageScanChunkSize > 0 && token.schedule(token.polls - 1))
        ==> LexLess(Progress(deps), old(Progress(deps)))
    {
      pagesProcessed, raised := ChunkTurns(targetCount, deps, token);
      if raised {
        return;
      }
      if |matches| >= deps.maxStoredMatches {
        completed := true;
        reachedMatchCap := true;
      }
    }

    /** One chunk of `fillMatchesUntil`, with its `catch`: an exception from `buildMatch`
        (`raised`) is recorded in `error` and completes the search. The matches from `n`
        on, those of this fill, stay kept. */
    method FillChunk(targetCount: int, deps: Deps, token: Token, ghost n: nat) returns (raised: bool)
      requires ValidOf(books, deps, State(), sources, matches, completed) && LoadedFetched(deps, State())
      requires token.Monotone() && deps.pageScanChunkSize >= 1
      requires !completed && |matches| < targetCount && token.polls > 0 && token.schedule(token.polls - 1)
      requires n <= |matches| && NewSince(matches, sources, n, targetCount, deps, normalizedQuery)
      modifies this`matches, this`sources, this`completed, this`reachedMatchCap, this`error,
        this`bookIndex, this`partIndex, this`partialFailures, this`activeBook, this`activeBookPartIndex,
        this`activePages, this`activePageIndex, this`pagesRead, token
      ensures ValidOf(books, deps, State(), sources, matches, completed) && LoadedFetched(deps, State())
      ensures old(matches) <= matches && old(sources) <= sources
      ensures NewSince(matches, sources, n, targetCount, deps, normalizedQuery)
      ensures raised ==> error && completed
      ensures !raised ==> error == old(error)
      ensures old(pagesRead) <= pagesRead <= old(pagesRead) + deps.pageScanChunkSize
      ensures reachedMatchCap != old(reachedMatchCap) ==> completed && |matches| >= deps.maxStoredMatches
      ensures completed && !raised ==> |matches| >= deps.maxStoredMatches || (bookIndex == |books| && activePages.None?)
      ensures token.polls > old(token.polls)
      ensures !raised && !completed && token.schedule(token.polls - 1) ==>
        LexLess(MeasureOf(books, deps, State()), MeasureOf(books, deps, old(State())))
    {
      ghost var seen := matches;
      ghost var found := sources;
      var pagesProcessed;
      pagesProcessed, raised := ScanSessionChunk(targetCount, deps, token);
      NewSinceTrans(seen, found, matches, sources, n, targetCount, deps, normalizedQuery);
      if raised {
        error := true;
        completed := true;
      }
    }

    /** The loop of `fillMatchesUntil`: chunks while the token is active, the search is not
        complete and fewer than `targetCount` matches are held. */
    method FillLoop(targetCount: int, deps: Deps, token: Token)
      requires Valid(deps) && PagesFetched(deps) && token.Monotone() && deps.pageScanChunkSize >= 1
      modifies this`matches, this`sources, this`completed, this`reachedMatchCap, this`error,
        this`bookIndex, this`partIndex, this`partialFailures, this`activeBook, this`activeBookPartIndex,
        this`activePages, this`activePageIndex, this`pagesRead, token
      ensures Valid(deps) && PagesFetched(deps)
      ensures old(matches) <= matches && old(sources) <= sources
      ensures NewMatches(|old(matches)|, targetCount, deps)
      ensures error != old(error) ==> completed
      ensures reachedMatchCap != old(reachedMatchCap) ==> completed && |matches| >= deps.maxStoredMatches
      ensures completed && !old(completed) ==>
        error || |matches| >= deps.maxStoredMatches || (bookIndex == |books| && activePages.None?)
      ensures token.polls > old(token.polls)
      ensures completed || |matches| >= targetCount || !token.schedule(token.polls - 1)
    {
      var active := token.IsActive();
      while active && !completed && |matches| < targetCount
        invariant ValidOf(books, deps, State(), sources, matches, completed) && LoadedFetched(deps, State())
        invariant old(matches) <= matches && old(sources) <= sources
        invariant NewSince(matches, sources, |old(matches)|, targetCount, deps, normalizedQuery)
        invariant error == old(error)
        invariant reachedMatchCap != old(reachedMatchCap) ==> completed && |matches| >= deps.maxStoredMatches
        invariant completed && !old(completed) ==>
          |matches| >= deps.maxStoredMatches || (bookIndex == |books| && activePages.None?)
        invariant token.polls > old(token.polls) && active == token.schedule(token.polls - 1)
        decreases if completed then 0 else 1, if active then 1 else 0,
          MeasureOf(books, deps, State()).books, MeasureOf(books, deps, State()).parts, MeasureOf(books, deps, State()).pages
      {
        var raised := FillChunk(targetCount, deps, token, |old(matches)|);
        if raised {
          return;
        }
        ghost var lastPoll := token.polls - 1;
        active := token.IsActive();
        if active {
          assert token.schedule(lastPoll);
        }
      }
    }

    /** `fillMatchesUntil(session, targetCount, deps)`: nothing while a fill is running,
        after the search is complete or once `targetCount` matches are held; otherwise the
        loop above, with `loading` set while it runs and cleared in every case. */
    method FillMatchesUntil(targetCount: int, deps: Deps, token: Token)
      requires Valid(deps) && PagesFetched(deps) && token.Monotone() && deps.pageScanChunkSize >= 1
      modifies this`matches, this`sources, this`loading, this`completed, this`reachedMatchCap, this`error,
        this`bookIndex, this`partIndex, this`partialFailures, this`activeBook, this`activeBookPartIndex,
        this`activePages, this`activePageIndex, this`pagesRead, token
      ensures old(loading || completed || |matches| >= targetCount) ==> unchanged(this) && unchanged(token)
      ensures !old(loading) ==> !loading
      ensures Valid(deps) && PagesFetched(deps)
      ensures old(matches) <= matches && old(sources) <= sources
      ensures NewMatches(|old(matches)|, targetCount, deps)
      ensures error != old(error) ==> completed
      ensures reachedMatchCap != old(reachedMatchCap) ==> completed && |matches| >= deps.maxStoredMatches
      ensures completed && !old(completed) ==>
        error || |matches| >= deps.maxStoredMatches || (bookIndex == |books| && activePages.None?)
      ensures !old(loading) ==>
        completed || |matches| >= targetCount || (token.polls > old(token.polls) && !token.schedule(token.polls - 1))
    {
      if loading || completed || |matches| >= targetCount {
        return;
      }
      loading := true;
      FillLoop(targetCount, deps, token);
      loading := false;
    }
  }
}
