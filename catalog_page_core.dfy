/** The catalogue pages' shared logic (js/catalog-page-core.js): the text normal form used
    to compare names, the "continue reading" place of a book, the category filter of the
    book lists and the value the category selector settles on. `getBookCategories` and
    `buildReaderUrlWithState` are not part of this model: a book's categories come from a
    given function, and the reader link is the arguments it is built from. */
module CatalogPageCore {
  import opened Wrappers
  import opened Strings
  import Json
  import BooksMeta
  import Persistence
  import BookGroups

  const UncategorizedFilter := "__uncategorized"
  const AllFilter := "all"

  /** `normalizeCatalogText(value)`: the text, lower-cased and trimmed. */
  function NormalizeCatalogText(value: Json.Value): (r: string)
    ensures Trim(r) == r
    ensures value.Null? || value.Undefined? ==> r == ""
  {
    TrimIdempotent(Lower(Nfc(Json.StringOrEmpty(value))));
    Trim(Lower(Nfc(Json.StringOrEmpty(value))))
  }

  /** Lower-casing maps whitespace to itself and nothing else to whitespace. */
  lemma LowerCharWhitespace(c: char)
    ensures IsWhitespace(LowerChar(c)) <==> IsWhitespace(c)
    ensures LowerChar(LowerChar(c)) == LowerChar(c)
  {
  }

  /** Lower-cased text is left alone by lower-casing, and so is any slice of it. */
  lemma LowerOfLowerSlice(s: string, i: nat, j: nat)
    requires i <= j <= |s|
    ensures Lower(Lower(s)[i..j]) == Lower(s)[i..j]
  {
    var t := Lower(s)[i..j];
    forall k | 0 <= k < |t|
      ensures Lower(t)[k] == t[k]
    {
      LowerCharWhitespace(s[i + k]);
    }
  }

  /** Normalising normalised text changes nothing, so names compare the same however often
      they are normalised. */
  lemma NormalizeCatalogTextIdempotent(s: string)
    ensures NormalizeCatalogText(Json.Str(NormalizeCatalogText(Json.Str(s)))) == NormalizeCatalogText(Json.Str(s))
  {
    var low := Lower(s);
    var i, j := TrimInfix(low);
    LowerOfLowerSlice(s, i, j);
    var t := Trim(low);
    assert Lower(t) == t;
    TrimIdempotent(low);
  }

  /** A non-blank trimmed name keeps a non-blank normal form. */
  lemma NormalizedNameNotBlank(s: string)
    requires s != "" && Trim(s) == s
    ensures NormalizeCatalogText(Json.Str(s)) != ""
  {
    LowerCharWhitespace(s[0]);
    TrimEmptyIff(s);
    TrimEmptyIff(Lower(s));
    assert !IsWhitespace(Lower(s)[0]);
  }

  /** Whether one of `names` has the normal form `target` (`names.some(...)`). */
  predicate HasNormalizedName(names: seq<string>, target: string) {
    exists i :: 0 <= i < |names| && NormalizeCatalogText(Json.Str(names[i])) == target
  }

  /** The name filter of `filterBooksByAuthor` and of `filterBooksByCategory` in
      js/categories-data.js: nothing for a blank name, otherwise the books with a name of
      the same normal form. */
  function FilterByNormalizedName(books: seq<Json.Value>, namesOf: Json.Value -> seq<string>, name: Json.Value): seq<Json.Value> {
    var normalizedTarget := NormalizeCatalogText(name);
    if normalizedTarget == "" then []
    else BookGroups.Filter(books, book => HasNormalizedName(namesOf(book), normalizedTarget))
  }

  lemma FilterByNormalizedNameKeeps(books: seq<Json.Value>, namesOf: Json.Value -> seq<string>, name: Json.Value, book: Json.Value)
    ensures NormalizeCatalogText(name) == "" ==> FilterByNormalizedName(books, namesOf, name) == []
    ensures book in FilterByNormalizedName(books, namesOf, name) <==>
      && NormalizeCatalogText(name) != ""
      && book in books
      && HasNormalizedName(namesOf(book), NormalizeCatalogText(name))
  {
    var target := NormalizeCatalogText(name);
    if target != "" {
      BookGroups.FilterMembers(books, b => HasNormalizedName(namesOf(b), target), book);
    }
  }

  /** A book is found under each of its own (trimmed, non-blank) names. */
  lemma ListedUnderOwnName(books: seq<Json.Value>, namesOf: Json.Value -> seq<string>, name: string, j: nat)
    requires j < |books| && name in namesOf(books[j]) && name != "" && Trim(name) == name
    ensures books[j] in FilterByNormalizedName(books, namesOf, Json.Str(name))
  {
    NormalizedNameNotBlank(name);
    var target := NormalizeCatalogText(Json.Str(name));
    var i :| 0 <= i < |namesOf(books[j])| && namesOf(books[j])[i] == name;
    assert HasNormalizedName(namesOf(books[j]), target);
    BookGroups.FilterMembers(books, b => HasNormalizedName(namesOf(b), target), books[j]);
  }

  /** The reader link a book's "continue reading" entry is built from (the arguments of
      `buildReaderUrlWithState`). */
  datatype ReaderLink = ReaderLink(book: Json.Value, partIndex: nat, pageIndex: nat, chapterId: string)

  datatype ProgressMeta = ProgressMeta(progressHref: ReaderLink, progressLabel: string)

  const ProgressLabel := "متابعة القراءة"

  /** An index made safe: itself when not negative, else 0. */
  function SafeIndex(i: int): nat {
    if i >= 0 then i else 0
  }

  /** `getBookProgressMeta(book)` against the read store. */
  function GetBookProgressMeta(book: Json.Value, store: Persistence.ReaderStore): Option<ProgressMeta> {
    match Persistence.LoadBookProgress(store, Json.Str(BooksMeta.GetBookId(book)))
    case None => None
    case Some(progress) =>
      Some(ProgressMeta(
        ReaderLink(book, SafeIndex(progress.partIndex), SafeIndex(progress.pageIndex), progress.chapterId),
        ProgressLabel))
  }

  /** There is a "continue reading" entry exactly when a place is saved for the book, and it
      links to that very place: the index checks never change a loaded place. */
  lemma ProgressMetaLinksSavedPlace(book: Json.Value, store: Persistence.ReaderStore)
    ensures GetBookProgressMeta(book, store).Some?
      <==> Persistence.LoadBookProgress(store, Json.Str(BooksMeta.GetBookId(book))).Some?
    ensures GetBookProgressMeta(book, store).Some? ==>
      && GetBookProgressMeta(book, store).value.progressHref.partIndex
         == Persistence.LoadBookProgress(store, Json.Str(BooksMeta.GetBookId(book))).value.partIndex
      && GetBookProgressMeta(book, store).value.progressHref.pageIndex
         == Persistence.LoadBookProgress(store, Json.Str(BooksMeta.GetBookId(book))).value.pageIndex
      && GetBookProgressMeta(book, store).value.progressHref.chapterId
         == Persistence.LoadBookProgress(store, Json.Str(BooksMeta.GetBookId(book))).value.chapterId
  {
  }

  /** Whether a book with these categories is shown in a category mode. */
  predicate InMode(categories: seq<Json.Value>, categoryMode: string) {
    if categoryMode == UncategorizedFilter then |categories| == 0
    else if categoryMode != AllFilter then Json.Str(categoryMode) in categories
    else true
  }

  /** `filterBooksByCategory(sourceBooks, categoryMode)`. */
  function FilterBooksByCategory(sourceBooks: seq<Json.Value>, categoriesOf: Json.Value -> seq<Json.Value>,
                                 categoryMode: string): seq<Json.Value> {
    BookGroups.Filter(sourceBooks, book => InMode(categoriesOf(book), categoryMode))
  }

  /** The mode `all` keeps every book, in order. */
  lemma AllModeKeepsEverything(sourceBooks: seq<Json.Value>, categoriesOf: Json.Value -> seq<Json.Value>)
    ensures FilterBooksByCategory(sourceBooks, categoriesOf, AllFilter) == sourceBooks
  {
    BookGroups.FilterAll(sourceBooks, book => InMode(categoriesOf(book), AllFilter));
  }

  /** The uncategorised mode keeps exactly the books without categories, any other mode
      exactly the books with that category; both keep the books' order. */
  lemma CategoryModeKeeps(sourceBooks: seq<Json.Value>, categoriesOf: Json.Value -> seq<Json.Value>,
                          categoryMode: string, book: Json.Value)
    ensures book in FilterBooksByCategory(sourceBooks, categoriesOf, UncategorizedFilter)
      <==> book in sourceBooks && |categoriesOf(book)| == 0
    ensures categoryMode != UncategorizedFilter && categoryMode != AllFilter ==>
      (book in FilterBooksByCategory(sourceBooks, categoriesOf, categoryMode)
       <==> book in sourceBooks && Json.Str(categoryMode) in categoriesOf(book))
  {
    BookGroups.FilterMembers(sourceBooks, b => InMode(categoriesOf(b), UncategorizedFilter), book);
    BookGroups.FilterMembers(sourceBooks, b => InMode(categoriesOf(b), categoryMode), book);
  }

  /** Whether `currentValue` is among the selector's options: `all`, a category some book
      has, or the uncategorised value when some book has none. */
  predicate AllowedValue(sourceBooks: seq<Json.Value>, categoriesOf: Json.Value -> seq<Json.Value>,
                         currentValue: string, uncategorizedValue: string) {
    || currentValue == AllFilter
    || (exists i :: 0 <= i < |sourceBooks| && Json.Str(currentValue) in categoriesOf(sourceBooks[i]))
    || (currentValue == uncategorizedValue && exists i :: 0 <= i < |sourceBooks| && |categoriesOf(sourceBooks[i])| == 0)
  }

  /** `populateCategoryFilter(selectElement, sourceBooks, options)`, apart from building the
      options: `hasSelect` says whether a usable select element was given. The categories
      are gathered into a set, and a book without any sets the uncategorised flag. */
  method PopulateCategoryFilter(hasSelect: bool, sourceBooks: seq<Json.Value>, categoriesOf: Json.Value -> seq<Json.Value>,
                                currentValue: string, uncategorizedValue: string) returns (nextValue: string)
    ensures !hasSelect ==> nextValue == currentValue
    ensures hasSelect ==>
      nextValue == if AllowedValue(sourceBooks, categoriesOf, currentValue, uncategorizedValue) then currentValue else AllFilter
  {
    if !hasSelect {
      return currentValue;
    }
    var categoriesSet: set<Json.Value> := {};
    var hasUncategorizedBooks := false;
    for i := 0 to |sourceBooks|
      invariant forall c :: c in categoriesSet <==> exists j :: 0 <= j < i && c in categoriesOf(sourceBooks[j])
      invariant hasUncategorizedBooks <==> exists j :: 0 <= j < i && |categoriesOf(sourceBooks[j])| == 0
    {
      var categories := categoriesOf(sourceBooks[i]);
      if |categories| == 0 {
        hasUncategorizedBooks := true;
      } else {
        categoriesSet := categoriesSet + set c | c in categories;
      }
    }
    var allowedValues := {Json.Str(AllFilter)} + categoriesSet
      + (if hasUncategorizedBooks then {Json.Str(uncategorizedValue)} else {});
    nextValue := if Json.Str(currentValue) in allowedValues then currentValue else AllFilter;
  }
}
