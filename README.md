# A verified model of the Ciyoku book reader's core

Ciyoku is a static web site for reading Arabic books. Each book is a folder of plain-text
parts (`book.txt`, `book2.txt`, …) listed in `books/list.json`. The browser code splits a
part into pages, parses each page's `##` headings into chapters, and builds a
diacritic-insensitive search index. It also searches a single book or the whole library,
stores reading progress and favourites in `localStorage`, and groups the catalogue by
author and category. A Node script checks the book list against the folders.

This project restates that logic in Dafny and proves what the code promises about it. Each
module follows one source file:

- `FullTextSession` covers `js/search/full-text-session.js`. The library search is a
  resumable cursor over books, parts, pages and lines. It is a `Session` class whose methods
  update its fields in place. The injected helpers are a `Deps` value: book id, part count,
  part fetch (`Text | Missing | Throws`), page split, line normalisation, match building,
  `maxStoredMatches` and `pageScanChunkSize`. The cancellation check `isTokenActive()` is a
  `Token` object whose answers follow a fixed schedule.
- `ReaderParser` covers `js/reader-parser.js`. It models diacritic removal, the map from
  normalised to source positions, highlight ranges and their HTML, escaping, the page split
  and the page and book parsers. Each loop is a method proved against a specification
  function.
- `Excerpt` covers `js/search/excerpt.js`, which makes the excerpt window around a match.
- `InBookSearch` covers `js/reader/search.js`. `QueryWords` covers `js/shared/query-words.js`.
- `ParsedContentCache` covers `js/reader/parsed-content-cache.js`. It is a ten-entry cache
  kept in recency order, modelled as a class over a key order and an entry map.
- `NumberFormat`, `BooksMeta`, `BookContent`, `UrlState` (with `SearchParams`, the query
  string as name/value pairs) and `PartState` cover the small parsers and formatters of the
  same names.
- `Persistence` and `FavoritesStore` cover the stored reading progress and favourites.
  `LocalStorage` says what a storage slot can hold.
- `BookGroups`, `AuthorsData`, `CategoriesData` and `CatalogPageCore` cover the catalogue
  lists. `BookDetails` covers the metadata helpers of `js/book-details-page.js`.
- `ValidateBooks` covers `scripts/validate-books.mjs`. The file system is given as
  predicates and values.
- `Json`, `Strings` and `Wrappers` hold shared definitions. `Json` has the JavaScript values
  the code inspects, `String(v)`, `parseInt` and truthiness. `Strings` has `trim`, `split`,
  `indexOf`, decimal text, ASCII lower case and order-keeping de-duplication.

## Model

| member | source | states |
|---|---|---|
| QueryWords.SplitCountsWords | js/shared/query-words.js:6-8 | the non-empty pieces of a split on runs of white space number exactly the words (maximal runs of non-white-space) of the text |
| QueryWords.CountIsWords | js/shared/query-words.js:3-9 | `countQueryWords` is the number of words of the trimmed text of the value |
| QueryWords.WordsOfTrim | js/shared/query-words.js:5 | trimming changes no word count |
| QueryWords.WordsAroundWhitespace | js/shared/query-words.js:4-8 | white space before and after a text changes no word count |
| QueryWords.CountQueryWordsOfText | js/shared/query-words.js:3-9 | a string counts its words; padding it with white space changes nothing; `null`, `undefined` and blank text count 0 |
| QueryWords.MinimumIsMonotone | js/shared/query-words.js:11-16 | with a positive integer minimum the floor holds exactly when the count reaches it, so a query meeting a floor meets every lower positive floor |
| QueryWords.MinimumFallsBack | js/shared/query-words.js:12-14 | a minimum that is not a positive integer asks for two words |
| NumberFormat.ToArabicIndicChar | js/reader/number-format.js:1-5 | an ASCII digit d becomes the Arabic-Indic digit U+0660+d; any other character is kept |
| NumberFormat.ToArabicIndic | js/reader/number-format.js:3-5 | the length is kept and each character is converted on its own |
| NumberFormat.AsciiDigitOf | js/reader/number-format.js:9-10 | Arabic-Indic and Extended Arabic-Indic digits become the ASCII digit of the same value; other characters are kept |
| NumberFormat.AsciiDigits | js/reader/number-format.js:9-10 | both replacements, character by character, keeping the length |
| NumberFormat.KeepDigits | js/reader/number-format.js:11 | removing non-digits leaves only ASCII digits, never more characters than the input |
| NumberFormat.KeepDigitsEmptyIff | js/reader/number-format.js:11-13 | nothing is left after removing non-digits exactly when the text holds no ASCII digit |
| NumberFormat.NoNumberIffNoDigit | js/reader/number-format.js:7-13 | the input gives `null` exactly when it holds no digit of any of the three digit sets |
| NumberFormat.DigitsRunTogether | js/reader/number-format.js:11 | characters that are not digits between two stretches are dropped and the digits run together |
| NumberFormat.DigitlessPrefixIgnored | js/reader/number-format.js:7-17 | text without digits in front of the input changes no page number |
| NumberFormat.OneAThenTwoIsTwelve | js/reader/number-format.js:7-17 | the input `1a2` is page 12 |
| NumberFormat.ArabicIndicBack | js/reader/number-format.js:1-10 | ASCII digits shown in Arabic-Indic digits and converted back are the same digits |
| NumberFormat.ParseArabicIndicDigits | js/reader/number-format.js:7-17 | a non-empty run of digits shown in Arabic-Indic digits parses as its decimal value |
| NumberFormat.ArabicIndicRoundTrip | js/reader/number-format.js:3-17 | every natural number shown by `toArabicIndicNumber` reads back as itself through `parsePageNumberInput` |
| InBookSearch.MatchPositions | js/reader/search.js:10-12 | the positions of the entries whose normalised line contains the query, strictly increasing and in range |
| InBookSearch.MatchPositionsComplete | js/reader/search.js:10-12 | every entry containing the query has its position listed |
| InBookSearch.Cap | js/reader/search.js:13 | the count check follows a push, so at least one match is kept, and exactly `maxResults` when that is positive |
| InBookSearch.MatchingOfPrefix | js/reader/search.js:10-14 | the matches found in a prefix of the index are a prefix of the matches of the whole index |
| InBookSearch.SearchInBookIndex | js/reader/search.js:3-17 | the scan with early exit returns the normalised query and the first `Cap(maxResults)` matching entries in index order, or the refusal |
| InBookSearch.ShortQueriesRefused | js/reader/search.js:4-7 | a normalised query shorter than two characters gives an empty query and no matches; otherwise the query comes back in normal form |
| InBookSearch.MatchesAreOrderedHits | js/reader/search.js:10-16 | the matches are index entries, in index order, each containing the query, and at most `maxResults` of them (one when that is not positive) |
| InBookSearch.NoMatchMissedBelowCap | js/reader/search.js:10-14 | when fewer matches than the cap come back, every entry containing the query is among them |
| PartState.PartStateSlots | js/reader/part-state.js:3-11 | one slot per part, a single one unless the count is an integer above 1; every slot idle, empty, without a request and labelled with its part number |
| PartState.PartLabelReadsBack | js/reader/part-selector.js:1-3 | the label of part `index` reads back through the page-number parser as the one-based part number |
| PartState.PreloadUnlessSlowOrSaving | js/reader/part-state.js:13-23 | preloading is refused exactly when a connection exists and either saves data or reports a `2g` type in any letter case |
| PartState.ConnectionFallsBack | js/reader/part-state.js:15 | the standard, `moz` and `webkit` connections are tried in that order |
| BookContent.TotalParts | js/book-content.js:23-25 | at least one part is requested |
| BookContent.FirstMissing | js/book-content.js:33 | the index of the first part whose response was not ok, or -1 when every part came back |
| BookContent.PartFileNames | js/book-content.js:1-3 | the first part is `book.txt` and part `i` is `book{i+1}.txt` |
| BookContent.LoadsUpToFirstMissingPart | js/book-content.js:17-43 | a blank id or a missing first part is the load error and a failed request is an error; any other request succeeds, with the texts of the parts before the first missing one (of every part when none is missing), in order, at least one and at most as many as requested |
| BookContent.RequestedPartCount | js/book-content.js:23-25 | an integer count above 1 is used as is; anything else asks for one part |
| Persistence.NormalizeInteger | js/reader/persistence.js:7-11 | the result is the fallback or an integer at least `min` |
| Persistence.NormalizeIntegerOfInteger | js/reader/persistence.js:7-11 | an integer, given as a number or as its decimal text, is kept when at least `min` and replaced by the fallback otherwise |
| Persistence.NormalizeIntegerOfMissing | js/reader/persistence.js:7-11 | `undefined` and `null` give the fallback |
| Persistence.ReadStore | js/reader/persistence.js:13-25 | the font size read is `null` or finite; an absent or unparseable slot reads as the empty store |
| Persistence.ReadAfterWrite | js/reader/persistence.js:13-34 | a store with a finite or null font size that is written reads back unchanged |
| Persistence.LoadBookProgress | js/reader/persistence.js:49-63 | a blank id loads nothing; a loaded place has non-negative part and page indices |
| Persistence.RecordFields | js/reader/persistence.js:70-75 | the saved record carries the part index, page index, chapter and save time under their own keys |
| Persistence.LoadStoredRecord | js/reader/persistence.js:49-63 | a stored record with non-negative indices loads back with those indices, that chapter and that save time |
| Persistence.ProtoLoadsStartOfBook | js/reader/persistence.js:53-62 | with no own `__proto__` record, the id `__proto__` finds `Object.prototype` and loads part 0, page 0, no chapter and no time |
| Persistence.EmptyObjectPlace | js/reader/persistence.js:55-62 | an object without the record's fields loads as part 0, page 0, no chapter and no time |
| Persistence.LoadAfterSave | js/reader/persistence.js:49-76 | a saved place loads back with its indices normalised, its chapter as text and the save time; under `__proto__` with no own record the save replaces the prototype, nothing is stored, and the load gives part 0, page 0 |
| Persistence.SaveLeavesOtherBooks | js/reader/persistence.js:69-70 | saving one book's place leaves every other book's loaded place as it was |
| Persistence.Storage.constructor | js/reader/persistence.js:15 | a storage slot with the given content and writability |
| Persistence.Storage.WriteStore | js/reader/persistence.js:27-34 | writes the encoded store and answers `true` when storage accepts it; answers `false` and keeps the slot otherwise |
| Persistence.Storage.SaveBookProgress | js/reader/persistence.js:65-77 | succeeds exactly for a non-blank id, an object progress and writable storage; then the store read back is the old one with only this book's record replaced (left as it was for `__proto__` without an own record, whose assignment sets the prototype); otherwise nothing is written |
| Persistence.ExplicitRequestIgnoresStored | js/reader/persistence.js:80-90 | with any explicit flag the stored place is ignored; a field whose flag is set is the requested integer (0 when not an integer) or the requested chapter text, and every field whose flag is not set is 0 or empty |
| Persistence.NothingRequestedNothingStored | js/reader/persistence.js:84-90 | with no flag and no stored place the reader opens at part 0, page 0, no chapter |
| Persistence.ResumesAtLoadedPlace | js/reader/persistence.js:92-96 | with no flag the reader resumes at exactly the place `loadBookProgress` returned |
| FavoritesStore.Ids | js/favorites-store.js:4-6 | each value normalised to its trimmed text, position by position |
| FavoritesStore.CleanIdsClean | js/favorites-store.js:13-18 | the cleaned list holds distinct, non-blank, trimmed ids |
| FavoritesStore.CleanIdsMembers | js/favorites-store.js:13-18 | an id is kept exactly when it is non-blank and some stored value normalises to it |
| FavoritesStore.IdsAppend | js/favorites-store.js:14-16 | normalising a concatenation normalises each half |
| FavoritesStore.CleanIdsPrefix | js/favorites-store.js:13-18 | later values never reorder or drop ids already kept: cleaning keeps first occurrences in order |
| FavoritesStore.CleanIdsOfClean | js/favorites-store.js:24-35 | a list that is already clean is written unchanged |
| FavoritesStore.ReadAfterWrite | js/favorites-store.js:8-35 | what `writeFavorites` stores reads back as the same clean list |
| FavoritesStore.WithoutClean | js/favorites-store.js:61 | removing an id keeps a clean list clean |
| FavoritesStore.AppendedReadsBack | js/favorites-store.js:54-57 | appending a new trimmed id to a clean list writes and reads back the list with the id at its end |
| FavoritesStore.RemovedReadsBack | js/favorites-store.js:60-62 | removing an id from a clean list writes and reads back that list without it |
| FavoritesStore.AfterSetEffect | js/favorites-store.js:47-66 | after `setFavorite` the list is clean, holds the target exactly when it was asked to, and holds every other id exactly when it did before |
| FavoritesStore.ToggleTwice | js/favorites-store.js:68-70 | toggling flips membership of the target, and toggling a missing id twice restores the list |
| FavoritesStore.Store.constructor | js/favorites-store.js:2 | a storage slot with the given content |
| FavoritesStore.Store.ReadFavorites | js/favorites-store.js:8-22 | the stored favourites, as a clean list; anything unreadable or not an array reads as empty |
| FavoritesStore.Store.WriteFavorites | js/favorites-store.js:24-35 | stores and returns the clean list of the given values, which then reads back unchanged |
| FavoritesStore.Store.IsFavorite | js/favorites-store.js:41-45 | true exactly for a non-blank id present in the stored list |
| FavoritesStore.Store.SetFavorite | js/favorites-store.js:47-66 | returns whether a non-blank id is now a favourite; the new list is the set effect on the old one; nothing is written for a blank id or when the list already agrees |
| FavoritesStore.Store.ToggleFavorite | js/favorites-store.js:68-70 | returns true exactly when a non-blank id was not a favourite, and sets it to the opposite of what it was |
| BooksMeta.NormalizeId | js/books-meta.js:2-4 | the id is trimmed text, empty for `null` and `undefined` |
| BooksMeta.FallbackTitleUnpadded | js/books-meta.js:13 | the fallback title is non-empty and unpadded |
| BooksMeta.TitleIsTrimmedOrFallback | js/books-meta.js:10-14 | a title is never empty or padded: the trimmed title when the book has a non-blank one, the numbered fallback otherwise |
| BooksMeta.GetBookPartCount | js/books-meta.js:16-20 | a book has at least one part |
| BooksMeta.PartCountIsParsedParts | js/books-meta.js:16-24 | the count exceeds 1 exactly when the parsed `parts` does, and is then that number; an integer `parts` counts as itself above 1 and as 1 otherwise, and the book has several parts exactly then |
| BooksMeta.ParsePartToken | js/books-meta.js:45-50 | `partN`, in any letter case, gives the zero-based index N-1 when N is positive |
| BooksMeta.PartParamRoundTrip | js/books-meta.js:26-58 | the parameter written for a non-negative part index parses back to that index |
| BooksMeta.PartParamOfBadIndex | js/books-meta.js:26-29 | an index that is not a non-negative integer is written as `part1` |
| BooksMeta.PartTokenIgnoresCase | js/books-meta.js:45 | the `part` prefix is matched in any letter case |
| BooksMeta.MissingPartRefused | js/books-meta.js:40-42 | `null`, `undefined` and the empty text give no part |
| BooksMeta.PartZeroRefused | js/books-meta.js:47-49 | `part0` gives no part |
| BooksMeta.IntegerOfIntToString | js/books-meta.js:52 | the decimal text of an integer converts back to that integer |
| BooksMeta.PlainNumberIsOneBased | js/books-meta.js:52-57 | a plain number, given as a number or as its decimal text, is a one-based part number: positive ones give the index below them and others give no part |
| BooksMeta.ReaderUrlOfBlankId | js/books-meta.js:60-62 | a book without an id links to the bare reader page |
| BooksMeta.ReaderUrlNamesBook | js/books-meta.js:64-65 | the reader link always carries the book id |
| BooksMeta.ReaderUrlNamesPart | js/books-meta.js:67-70 | the link names a part exactly when the book has several parts and the index is past the first, and that part parses back as the index |
| SearchParams.Get | js/reader/url-state.js:26-28 | a value comes back exactly when some pair has that name |
| SearchParams.Delete | js/reader/url-state.js:42 | no pair of that name is left and no pair is added |
| SearchParams.GetDelete | js/reader/url-state.js:42 | after `delete` the name reads as absent and every other name reads as before |
| SearchParams.GetSet | js/reader/url-state.js:36-37 | after `set` the name reads as the value and every other name reads as before |
| SearchParams.SetLeavesOnePair | js/reader/url-state.js:36-37 | after `set` exactly one pair has that name, and it holds the value |
| SearchParams.GetSetOrDelete | js/reader/url-state.js:39-49 | setting or deleting by an optional value leaves the name reading as that value or as absent, and every other name as before |
| SearchParams.OnePairQuery | js/books-meta.js:64-72 | a query of one pair reads `name=value` |
| UrlState.ParsePageIndexOfNumber | js/reader/url-state.js:11-18 | page `n` of the URL is page `n - 1` of the reader for every integer `n` of at least 1, and the first page for smaller integers and for a missing parameter |
| UrlState.BuiltUrlGet | js/reader/url-state.js:32-52 | after the four updates, each name reads as written: chapter, part, page, book, and any other name as in the current URL |
| UrlState.BuiltUrlParams | js/reader/url-state.js:32-52 | no URL without a book; otherwise the book, the one-based page, the part exactly when the book has several parts and the part is past the first, the chapter exactly when there is one, and every other parameter kept |
| UrlState.ReaderUrlRoundTrip | js/reader/url-state.js:20-52 | parsing the URL written for a place gives back its page (the first page for a negative index), its chapter, and its part exactly when the URL names one |
| ParsedContentCache.KeyHasBookPrefix | js/reader/parsed-content-cache.js:12-14 | every key of a book starts with that book's prefix `id::`, which is what clearing a book deletes by |
| ParsedContentCache.KeyNamesBookAndPart | js/reader/parsed-content-cache.js:4-14 | two keys are equal exactly when their trimmed book ids and normalised part indices are, so different books or parts never share an entry; a negative or non-integer index shares part 0's entry |
| ParsedContentCache.TouchMovesToRecent | js/reader/parsed-content-cache.js:28-36 | deleting then re-adding a key keeps keys distinct, makes it the most recent, adds no other key and grows the order only for a new key |
| ParsedContentCache.EvictKeepsNewest | js/reader/parsed-content-cache.js:16-21 | eviction leaves at most ten keys, the newest ones in their order, and always keeps the most recent |
| ParsedContentCache.KeepUnprefixedMembers | js/reader/parsed-content-cache.js:42-46 | clearing keeps exactly the keys that do not start with the prefix |
| ParsedContentCache.ClearStep | js/reader/parsed-content-cache.js:43-45 | deleting or keeping the next key extends the cleared part of the order by one key |
| ParsedContentCache.DropOldest | js/reader/parsed-content-cache.js:18-19 | deleting the oldest of distinct keys leaves the others in order |
| ParsedContentCache.Cache.constructor | js/reader/parsed-content-cache.js:2 | the cache starts empty |
| ParsedContentCache.Cache.Delete | js/reader/parsed-content-cache.js:19 | removes the key from the order and its entry, and nothing else |
| ParsedContentCache.Cache.EnforceCacheLimit | js/reader/parsed-content-cache.js:16-21 | the loop removes oldest keys until at most ten remain; the order is then the evicted order and the entries left are unchanged |
| ParsedContentCache.Cache.Get | js/reader/parsed-content-cache.js:23-31 | a hit returns the stored entry and makes its key the most recent; a miss returns nothing and changes nothing; entries never change |
| ParsedContentCache.Cache.Set | js/reader/parsed-content-cache.js:33-38 | the entry is stored as the most recent, then the oldest are evicted down to ten; other surviving entries are unchanged |
| ParsedContentCache.Cache.ClearBook | js/reader/parsed-content-cache.js:40-47 | the loop deletes every key starting with the book's prefix, leaving the other keys in order and their entries unchanged |
| Excerpt.PagesOf | js/search/excerpt.js:26-32 | a text always splits into at least one page |
| Excerpt.PagesOfString | js/search/excerpt.js:26-32 | on a string the split is the reader's page split; `null` and `undefined` give one empty page |
| Excerpt.Radius | js/search/excerpt.js:35 | the radius is at least 1, and is either 120 or the integer asked for |
| Excerpt.RadiusIsRequestedIffPositiveInteger | js/search/excerpt.js:35 | a positive integer radius is used as asked; anything else gives 120 |
| Excerpt.ShortLineIsItsOwnExcerpt | js/search/excerpt.js:36-39 | a blank line has an empty excerpt and a line of at most twice the radius is its own excerpt, trimmed |
| Excerpt.UnmatchedLongLine | js/search/excerpt.js:41-45 | without a match in a long line, the excerpt is its first `2 * radius` characters, trimmed, then an ellipsis |
| Excerpt.UnmatchedLineExcerpt | js/search/excerpt.js:34-45 | a long line without a match is excerpted as its trimmed start, twice the radius long, with an ellipsis |
| Excerpt.WindowCoversMatch | js/search/excerpt.js:47-52 | the window takes in the whole match in the normalised text, and in the source it is a non-empty in-range stretch holding every character the match came from |
| Excerpt.MatchedLongLine | js/search/excerpt.js:41-56 | around the first match of a long line, the excerpt is the window's stretch of the line, trimmed, with an ellipsis before it exactly when it starts after the line's start and after it exactly when it ends before the line's end |
| Excerpt.MatchedLineExcerpt | js/search/excerpt.js:34-56 | the same for any line longer than twice the radius whose normalised text holds the query |
| ReaderParser.RemoveDiacritics | js/reader-parser.js:10 | the result holds no Arabic diacritic and is no longer than the input |
| ReaderParser.RemoveDiacriticsOfFree | js/reader-parser.js:87 | a text without diacritics is left as it is |
| ReaderParser.NormalizeArabicForSearch | js/reader-parser.js:84-89 | the normal form holds no diacritic and is no longer than the text |
| ReaderParser.NormalizeIdempotent | js/reader-parser.js:84-89 | normalising twice is normalising once, so re-normalising an already normalised query changes nothing |
| ReaderParser.KeptIndices | js/reader-parser.js:100-105 | the offsets of the non-diacritics, strictly increasing, each giving the kept character |
| ReaderParser.KeptIndicesComplete | js/reader-parser.js:100-105 | every non-diacritic offset of the source is kept |
| ReaderParser.MappingOfIsValid | js/reader-parser.js:95-112 | the map has one increasing source offset per normalised character, each on a non-diacritic that lowers to it, covers every non-diacritic, and its normalised text is `normalizeArabicForSearch` of the source |
| ReaderParser.OnlyDiacriticsBetween | js/reader-parser.js:100-105 | between two consecutive mapped offsets the source holds only diacritics |
| ReaderParser.BuildNormalizedIndexMap | js/reader-parser.js:95-112 | the loop builds exactly the valid mapping of the text |
| ReaderParser.SkipDiacritics | js/reader-parser.js:129-131 | the end moves forward to the end of the source or the first non-diacritic |
| ReaderParser.SkippedAreDiacritics | js/reader-parser.js:129-131 | every character passed over is a diacritic |
| ReaderParser.Occurrences | js/reader-parser.js:122-135 | the positions from the offset on where the query occurs, strictly increasing |
| ReaderParser.OccurrencesComplete | js/reader-parser.js:122-135 | every occurrence at or after the offset is listed, overlapping ones included |
| ReaderParser.RangeAtInSource | js/reader-parser.js:126-131 | the range of one occurrence is non-empty, inside the source, and ends at the source's end or on a non-diacritic |
| ReaderParser.RangesInSource | js/reader-parser.js:114-138 | every range is non-empty, inside the source, and takes in the diacritics after the last matched letter |
| ReaderParser.RangesStartAtOccurrences | js/reader-parser.js:123-126 | each range starts on the source character of an occurrence of the query |
| ReaderParser.RangesIncreasing | js/reader-parser.js:133-134 | range starts strictly increase |
| ReaderParser.RangesCoverOccurrences | js/reader-parser.js:122-135 | every occurrence in the normalised text, overlapping ones included, gets a range starting on its first source character |
| ReaderParser.ExtendOverDiacritics | js/reader-parser.js:129-131 | the inner loop stops where `SkipDiacritics` says |
| ReaderParser.NextMatch | js/reader-parser.js:122-134 | one pass: no more occurrences when it stops; otherwise the first occurrence, its range, and an offset one past it from which the rest of the occurrences follow |
| ReaderParser.CollectRanges | js/reader-parser.js:119-137 | the loop collects the range of every occurrence, in order |
| ReaderParser.FindDiacriticsInsensitiveRanges | js/reader-parser.js:114-138 | the NFC source and the ranges of every occurrence of the re-normalised query; none for an empty query |
| ReaderParser.EscapeHtmlHasNoMarkup | js/reader-parser.js:1-8 | escaped text holds no `<`, `>`, `"` or `'`, so it can neither open nor close a tag or an attribute |
| ReaderParser.EscapeCharHasNoMarkup | js/reader-parser.js:1-8 | what one character escapes to holds no markup character |
| ReaderParser.UnescapeEscapedChar | js/reader-parser.js:1-8 | decoding an escaped character followed by any text gives the character followed by the decoded text |
| ReaderParser.UnescapeEscapeHtml | js/reader-parser.js:1-8 | decoding the five entities undoes `escapeHtml` on every text |
| ReaderParser.SegmentsSpellSource | js/reader-parser.js:144-155 | the highlighted segments spell out exactly the source from the cursor on: nothing dropped, repeated or reordered |
| ReaderParser.MarkedAreRanges | js/reader-parser.js:147-152 | every highlighted piece is the text of one of the ranges |
| ReaderParser.HighlightRangesWithin | js/reader-parser.js:141 | every range found lies inside the NFC line |
| ReaderParser.HighlightPreservesText | js/reader-parser.js:140-156 | with no match the line comes back escaped and nothing else; the segments of a highlighted line, markup aside, spell out the whole line |
| ReaderParser.HighlightStep | js/reader-parser.js:147-152 | one range appends nothing for an overlapping match, else the escaped text before it and the wrapped match, and moves the cursor to its end |
| ReaderParser.HighlightTextIgnoringDiacritics | js/reader-parser.js:140-156 | the loop writes the escaped line with every match not overlapping an earlier one wrapped in a highlight span |
| ReaderParser.SplitBookPages | js/reader-parser.js:13-18 | a text always has at least one page |
| ReaderParser.SplitBookPagesRoundTrip | js/reader-parser.js:13-18 | no page holds the separator, joining the pages with it gives the text back, and there is one page exactly when the text has no separator |
| ReaderParser.ChapterIdNotEmpty | js/reader-parser.js:27-33 | a chapter id is never the empty id of lines before the first heading |
| ReaderParser.ChapterIdInjective | js/reader-parser.js:33 | distinct chapter numbers give distinct anchors |
| ReaderParser.NumberedChapters | js/reader-parser.js:32-38 | the page's chapters carry the heading titles and consecutive ids from the starting number |
| ReaderParser.NumberedChaptersSnoc | js/reader-parser.js:34-38 | a new heading appends one chapter with the next number |
| ReaderParser.PageEntriesAreContentLines | js/reader-parser.js:39-47 | the entries are the content lines in order, each with its normal form and the page index |
| ReaderParser.ContentLinesAreTrimmed | js/reader-parser.js:30-39 | lines that become entries are non-blank, trimmed and not headings |
| ReaderParser.CurrentTitleIsLatestTitle | js/reader-parser.js:26-36 | the chapter title is the book-start title before any heading, and otherwise the book-start title or a non-empty heading title of the page |
| ReaderParser.FiledUnderMoreTitles | js/reader-parser.js:29-49 | an entry filed under the page's chapters stays so as more headings follow |
| ReaderParser.NewEntryFiled | js/reader-parser.js:41-47 | the entry a content line adds is filed under the page's chapters so far |
| ReaderParser.EntriesFiledUnderPageChapters | js/reader-parser.js:20-52 | every entry of a page is filed under a chapter of that same page, or under the book-start title with an empty id before the page's first heading |
| ReaderParser.HeadingLineStep | js/reader-parser.js:31-38 | a heading line adds its title, chapter and markup and makes its id current, adding no entry |
| ReaderParser.HeadingLineIds | js/reader-parser.js:32-37 | a heading line adds its title and markup and makes its id current |
| ReaderParser.HeadingLineTitles | js/reader-parser.js:32 | a heading line adds its trimmed title |
| ReaderParser.HeadingLineId | js/reader-parser.js:33-37 | a heading line makes the next chapter number current |
| ReaderParser.ContentLineStep | js/reader-parser.js:39-47 | a content line adds one paragraph and one entry under the current chapter and changes nothing else |
| ReaderParser.BlankLineStep | js/reader-parser.js:29-49 | a blank line changes nothing |
| ReaderParser.ParsePage | js/reader-parser.js:20-52 | the line loop builds exactly the page's markup, chapters, entries and next chapter number |
| ReaderParser.OnPage | js/reader-parser.js:64-69 | each chapter of a page is tagged with that page |
| ReaderParser.AppendChapters | js/reader-parser.js:64-69 | the loop appends the page's chapters, tagged with the page |
| ReaderParser.AppendEntries | js/reader-parser.js:70-72 | the loop appends the page's entries in order |
| ReaderParser.BookStep | js/reader-parser.js:61-74 | one page adds its markup, its tagged chapters and its entries, and moves the chapter number on |
| ReaderParser.ParseBookContent | js/reader-parser.js:54-82 | the page loop builds exactly the parsed part |
| ReaderParser.BookPageHtmlLength | js/reader-parser.js:63 | one page of markup per page |
| ReaderParser.BookOfPageCount | js/reader-parser.js:54-82 | the part has as many pages of markup as pages, and at least one |
| ReaderParser.LastPageChapters | js/reader-parser.js:62-73 | the last page's chapters carry the numbers after those of the earlier pages |
| ReaderParser.BookChaptersNumbered | js/reader-parser.js:54-82 | chapters are numbered `chap-0`, `chap-1`, … across the pages, each tagged with a page of the part |
| ReaderParser.BookChaptersInPageOrder | js/reader-parser.js:61-69 | chapters come in page order |
| ReaderParser.BookChapterIdsDistinct | js/reader-parser.js:33-73 | no two chapters of a part share an anchor |
| ReaderParser.PageEntriesValid | js/reader-parser.js:39-47 | every entry of a page is a trimmed, non-blank, non-heading line with its normal form, on that page |
| ReaderParser.BookEntriesValid | js/reader-parser.js:54-82 | every entry of the part is such a line on a page of the part |
| ReaderParser.BookEntriesInPageOrder | js/reader-parser.js:70-72 | entries come in page order |
| ReaderParser.ChaptersOnEarlierPages | js/reader-parser.js:64-69 | chapters already listed stay listed on their page |
| ReaderParser.ChaptersOnLastPage | js/reader-parser.js:64-69 | a chapter of the page just parsed is listed on that page |
| ReaderParser.EntriesFiledUnderBookChapters | js/reader-parser.js:54-82 | every entry of the part is filed under a chapter on its own page, or under the book-start title with an empty id before that page's first heading |
| BookGroups.Filter | js/authors-data.js:73-76 | the kept books are no more than the books given |
| BookGroups.FilterMembers | js/authors-data.js:73-76 | a book is kept exactly when it is in the list and passes the test |
| BookGroups.FilterAppend | js/categories-data.js:47-50 | filtering a concatenation filters each half |
| BookGroups.FilterAll | js/catalog-page-core.js:37-49 | a test every book passes keeps the whole list in order |
| BookGroups.FilterStep | js/catalog-page-core.js:38 | one more book is appended exactly when it passes the test |
| BookGroups.AllKeysMembers | js/authors-data.js:41-49 | a name occurs among the books' names exactly when some book carries it |
| BookGroups.BooksWithoutName | js/authors-data.js:41-49 | no book is grouped under a name no book carries |
| BookGroups.NamesExact | js/authors-data.js:39-49 | the group names are distinct and are exactly the non-blank names some book carries |
| BookGroups.BookInItsGroups | js/authors-data.js:43-48 | a book is in the group of a name exactly when it carries that name |
| BookGroups.AddToGroups | js/authors-data.js:41-49 | one book is added to the group of each of its names; the `Map`'s keys stay the names in order of first appearance and each list stays the books carrying that name |
| BookGroups.AddUnderName | js/authors-data.js:43-48 | one name: a new name opens an empty group at the end, then the book is pushed onto that name's group |
| BookGroups.AllKeysStep | js/authors-data.js:41-42 | one more book adds its names at the end |
| BookGroups.BooksWithStep | js/authors-data.js:47 | one more book joins the group of a name exactly when it carries the name |
| BookGroups.AllKeysOf | js/authors-data.js:44-46 | every non-blank name seen has a group |
| BookGroups.GroupBooks | js/authors-data.js:38-57 | one group per name in order of first appearance, each holding exactly the books carrying it, in book order, with their count |
| CatalogPageCore.NormalizeCatalogText | js/catalog-page-core.js:12-14 | the normal form is trimmed, and empty for `null` and `undefined` |
| CatalogPageCore.LowerCharWhitespace | js/catalog-page-core.js:13 | lower-casing maps white space to white space and nothing else to it, and is idempotent on a character |
| CatalogPageCore.LowerOfLowerSlice | js/catalog-page-core.js:13 | a slice of lower-cased text is already lower case |
| CatalogPageCore.NormalizeCatalogTextIdempotent | js/catalog-page-core.js:12-14 | normalising a normal form changes nothing |
| CatalogPageCore.NormalizedNameNotBlank | js/catalog-page-core.js:12-14 | a non-blank trimmed name has a non-empty normal form |
| CatalogPageCore.FilterByNormalizedNameKeeps | js/authors-data.js:69-77 | no books for a blank name; otherwise exactly the books having a name with the same normal form |
| CatalogPageCore.ListedUnderOwnName | js/authors-data.js:69-77 | a book is found under each of its own trimmed, non-blank names |
| CatalogPageCore.ProgressMetaLinksSavedPlace | js/catalog-page-core.js:16-35 | there is a "continue reading" link exactly when a place is saved for the book, and it links to that very part, page and chapter |
| CatalogPageCore.AllModeKeepsEverything | js/catalog-page-core.js:37-49 | the `all` mode keeps every book in order |
| CatalogPageCore.CategoryModeKeeps | js/catalog-page-core.js:37-49 | the uncategorised mode keeps exactly the books without categories, any other mode exactly the books with that category |
| CatalogPageCore.PopulateCategoryFilter | js/catalog-page-core.js:52-111 | without a usable select the current value is returned; otherwise the current value when it is `all`, a category some book has, or the uncategorised value when some book has none, and `all` otherwise |
| AuthorsData.AuthorNamesClean | js/authors-data.js:3-19 | every collected name is non-blank and trimmed |
| AuthorsData.ItemNamesClean | js/authors-data.js:4-7 | every name collected from an array is non-blank and trimmed |
| AuthorsData.ItemNamesStep | js/authors-data.js:5 | one more array element appends its own names |
| AuthorsData.CollectAuthorNames | js/authors-data.js:3-19 | the recursion appends exactly the names of the value to the output |
| AuthorsData.BookAuthorsExact | js/authors-data.js:21-36 | a book's authors are distinct, trimmed and not blank, and are exactly the names its author fields give |
| AuthorsData.GroupBooksByAuthor | js/authors-data.js:38-57 | one group per author in order of first appearance, holding that author's books in order, with their count |
| AuthorsData.AuthorPageUrl | js/authors-data.js:60-67 | the authors index exactly for a blank name, otherwise the author page naming the trimmed name |
| AuthorsData.FilterByAuthorKeeps | js/authors-data.js:69-77 | no books for a blank name; otherwise exactly the books with an author of the same normal form |
| AuthorsData.GroupedBookIsListed | js/authors-data.js:38-77 | the author page of a group's name lists every book of the group |
| CategoriesData.ToSafeCategoryName | js/categories-data.js:4-6 | the name is trimmed text, empty for `null` and `undefined` |
| CategoriesData.BookCategoriesExact | js/categories-data.js:8-10 | a book's categories are distinct, trimmed and not blank, and are exactly the non-blank safe names of its raw categories |
| CategoriesData.GroupBooksByCategory | js/categories-data.js:12-32 | one group per category in order of first appearance, holding that category's books in order, with their count |
| CategoriesData.BookInCategoryGroups | js/categories-data.js:12-23 | the group names are distinct and are the categories some book has; a book is in a group exactly when it has that category |
| CategoriesData.CategoryPageUrl | js/categories-data.js:34-41 | the categories index exactly for a blank name, otherwise the category page naming the trimmed name |
| CategoriesData.FilterByCategoryKeeps | js/categories-data.js:43-51 | no books for a blank name; otherwise exactly the books with a category of the same normal form, never more than given |
| CategoriesData.GroupedBookIsListed | js/categories-data.js:12-51 | the category page of a group's name lists every book of the group |
| BookDetails.RenderableIffRenderableLeaf | js/book-details-page.js:48-68 | a value is renderable exactly when some leaf reached through arrays and plain objects is renderable: a non-blank string, a finite number or a boolean |
| BookDetails.DropSeparators | js/book-details-page.js:77 | dropping a leading run of `_` and `-` leaves text that does not start with one |
| BookDetails.CollapseLeavesNoSeparator | js/book-details-page.js:77 | no `_` or `-` is left after the replacement |
| BookDetails.CollapseOfPlain | js/book-details-page.js:77 | a key without `_` or `-` is left as it is |
| BookDetails.DropRun | js/book-details-page.js:77 | a whole run of separators is dropped up to the next other character |
| BookDetails.CollapseRun | js/book-details-page.js:77 | each maximal run of `_` and `-` becomes exactly one space |
| BookDetails.InheritedKeyMislabelled | js/book-details-page.js:70-78 | a key that is a name inherited from `Object.prototype` is labelled, as written, with the inherited member; the table's own keys alone would give its text |
| BookDetails.ValueOfKeyMislabelled | js/book-details-page.js:70-78 | the key `valueOf` is labelled, as written, with the inherited function instead of the word `valueOf` |
| BookDetails.LabelAgreesOffInheritedNames | js/book-details-page.js:70-78 | on every key other than an inherited name the written and corrected labels agree |
| BookDetails.MetadataLabelCases | js/book-details-page.js:70-78 | the blank-key label for a blank key, the table's label for a key in it, and otherwise the key with no `_` or `-` left |
| BookDetails.PrimitiveNumberReadsBack | js/book-details-page.js:80-83 | a whole number is written with no ASCII digit left, in as many characters as its decimal text, and reads back as itself |
| ValidateBooks.NormalizeParts | scripts/validate-books.mjs:16-22 | the part count the script uses is always at least 1 |
| ValidateBooks.NormalizePartsCases | scripts/validate-books.mjs:16-22 | the count is the base-10 integer prefix of the value's text when that is at least 1, and 1 when there is none or it is below 1; a whole number of parts counts as itself |
| ValidateBooks.NumberedFileName | scripts/validate-books.mjs:24-26 | every part after the first is looked for as `book<n>.txt`, whose fifth character is a digit rather than the first part's dot |
| ValidateBooks.PartFileNamesDiffer | scripts/validate-books.mjs:24-26 | two different part numbers never name the same file |
| ValidateBooks.FirstPassIds | scripts/validate-books.mjs:53-77 | an id is accepted exactly when it is non-blank and some object entry has it |
| ValidateBooks.EntryStepAccounts | scripts/validate-books.mjs:53-77 | one entry adds either one error (not an object, missing id, duplicate id) or one new id, keeps the earlier errors and warnings, and warns only about the id it adds |
| ValidateBooks.FirstPassAccounts | scripts/validate-books.mjs:53-77 | the first pass's errors and accepted ids together number the entries; its errors are only of its three kinds, and each warning is an empty title of an accepted id |
| ValidateBooks.EntryJudged | scripts/validate-books.mjs:54-76 | entry i adds "must be an object" when it is not an object, "missing id" when its id is blank, "duplicate" exactly when an earlier object entry has its id, and otherwise its id with no error and a warning exactly when its trimmed title is empty |
| ValidateBooks.MissingFiles | scripts/validate-books.mjs:89-96 | a book's missing-file errors are at most one per part and all name that book |
| ValidateBooks.MissingFilesExact | scripts/validate-books.mjs:89-96 | part p's file is reported exactly when 1 <= p <= parts and the file is absent, and every report names one of those parts |
| ValidateBooks.AllPartsMissing | scripts/validate-books.mjs:89-96 | with none of its part files present, a book gets exactly one error per part |
| ValidateBooks.BookErrorsReport | scripts/validate-books.mjs:79-97 | one entry's second-pass errors are missing folders or missing files under its own non-blank id |
| ValidateBooks.SecondPassReports | scripts/validate-books.mjs:79-97 | the second pass reports only missing folders and part files, each under a non-blank id that some entry has |
| ValidateBooks.UnreferencedExact | scripts/validate-books.mjs:99-104 | a name is warned about exactly when it is a folder of `books` and no accepted id |
| ValidateBooks.CleanListPasses | scripts/validate-books.mjs:46-125 | a list of objects with distinct non-blank ids whose folders and part files all exist ends with exit code 0 |
| ValidateBooks.CleanFirstPass | scripts/validate-books.mjs:53-77 | objects with distinct non-blank ids give the first pass no error |
| ValidateBooks.CleanSecondPass | scripts/validate-books.mjs:79-97 | when every folder and file exists, the second pass gives no error |
| ValidateBooks.NoMissingFiles | scripts/validate-books.mjs:89-96 | when every file exists, no part is reported |
| ValidateBooks.CheckEntries | scripts/validate-books.mjs:51-77 | the first-pass loop gathers exactly the errors, warnings and accepted ids that FirstPass describes |
| ValidateBooks.CheckPartFiles | scripts/validate-books.mjs:89-96 | the part loop reports exactly MissingFiles: the absent files among parts 1 to `parts`, in order |
| ValidateBooks.CheckBook | scripts/validate-books.mjs:80-96 | one entry gives nothing for a blank id, the missing folder alone when its folder is absent, and its missing part files otherwise |
| ValidateBooks.CheckFolders | scripts/validate-books.mjs:79-97 | the second-pass loop gives the entries' errors in order, or stops when an entry is `null` and reading its `id` throws |
| ValidateBooks.ListUnreferenced | scripts/validate-books.mjs:99-104 | the unreferenced folders are exactly the folder entries no accepted id names, in listed order |
| ValidateBooks.Report | scripts/validate-books.mjs:106-124 | the final errors are the first pass's then the missing folders and files; the warnings gain one unreferenced-folders line only when there are such folders |
| ValidateBooks.ValidateList | scripts/validate-books.mjs:46-125 | once the list is an array, the check is the first pass, the second pass and the folder listing, and stops if any of these throws |
| ValidateBooks.Validate | scripts/validate-books.mjs:37-130 | an unreadable list or one that is not an array stops the check with exit code 1; otherwise the exit code is 1 exactly when an error was found |
| FullTextSession.Token.constructor | js/search/full-text-session.js:63 | a token starts with no question asked and answers by its fixed schedule |
| FullTextSession.Token.IsActive | js/search/full-text-session.js:63 | each call to `isTokenActive()` is one more question, answered by the schedule for that question |
| FullTextSession.OrderedStrictly | js/search/full-text-session.js:92-116 | matches kept in order come strictly before one another in reading order (book, part, page, line) |
| FullTextSession.NewSinceTrans | js/search/full-text-session.js:129-159 | matches added since n and then since a later count are matches added since n, all kept under the same bounds |
| FullTextSession.TurnMovesForward | js/search/full-text-session.js:36-77 | a turn of the part loop either goes on to the next book at part 0 or to the next part of the same book, never past its part count |
| FullTextSession.TurnCountsFailures | js/search/full-text-session.js:52-63 | exactly the fetches that throw add one partial failure each; the token is asked exactly after a fetch that did not throw |
| FullTextSession.TurnSkipsBook | js/search/full-text-session.js:38-71 | a book is passed over exactly when it has no id, no part left, or its first part is missing; a missing later part only moves to the next part |
| FullTextSession.TurnLoads | js/search/full-text-session.js:63-77 | a part is loaded exactly when its text was fetched and the search is still current; a search is given up only after being asked |
| FullTextSession.TurnKeepsShape | js/search/full-text-session.js:36-77 | a turn keeps the cursor within the books and their part counts, strictly reduces the work left, and a loaded part starts at page 0 |
| FullTextSession.Session.constructor | js/search/full-text-session.js:8-25 | a new session holds the books and query, no match, no loaded part, cursor at book 0 part 0, nothing failed or finished |
| FullTextSession.Session.ResetActivePartState | js/search/full-text-session.js:1-6 | afterwards no part is loaded and its page index is 0; nothing else changes |
| FullTextSession.Session.NextPartStep | js/search/full-text-session.js:36-77 | one turn of the part loop changes the session as the turn function says and asks the token only when that turn does |
| FullTextSession.Session.PrepareNextPart | js/search/full-text-session.js:27-81 | the cursor only moves forward; true exactly when a part is loaded, at page 0 with less work left; false only when the books are exhausted or the search was found replaced |
| FullTextSession.Session.Keep | js/search/full-text-session.js:115 | a kept match is appended with its source, keeping the matches in reading order |
| FullTextSession.Session.ScanLine | js/search/full-text-session.js:97-115 | a line adds at most one match, only a non-blank trimmed line whose normal form contains the query, built for a book with an id and having an excerpt |
| FullTextSession.Session.ScanPageForMatches | js/search/full-text-session.js:83-117 | the page adds matches only while fewer than `targetCount` and `maxStoredMatches` are held, each found on a line of that page, in line order |
| FullTextSession.Session.LeavePart | js/search/full-text-session.js:146-158 | leaving a part whose pages are all read unloads it and reduces the work left |
| FullTextSession.Session.ScanActivePage | js/search/full-text-session.js:151-154 | scanning the current page moves to the next page, counts one more page read and reduces the work left, unless building a match threw, which moves and counts nothing |
| FullTextSession.Session.ReadActivePart | js/search/full-text-session.js:146-158 | one page of a loaded part is scanned, and the part is let go once its pages are read; the pages-read count grows by one exactly when a page was scanned |
| FullTextSession.Session.ChunkIteration | js/search/full-text-session.js:136-158 | one iteration loads a part when none is loaded, or stops: completed exactly when the search is still current and the books are exhausted; the pages-read count grows by one exactly when a page was scanned |
| FullTextSession.Session.ChunkTurns | js/search/full-text-session.js:127-159 | the chunk loop reads at most `pageScanChunkSize` pages, `pagesProcessed` being exactly the number of pages it scanned; it scans and adds nothing when the search was already replaced, and only finishes after the last book |
| FullTextSession.Session.ScanSessionChunk | js/search/full-text-session.js:119-169 | a chunk keeps the matches in reading order and within bounds, returns as `pagesProcessed` exactly the number of pages it scanned (at most `pageScanChunkSize`), and marks the search finished at the cap exactly when `maxStoredMatches` matches are held |
| FullTextSession.Session.FillChunk | js/search/full-text-session.js:184-188 | one chunk of the fill scans at most `pageScanChunkSize` pages; an exception from building a match is recorded as the error and ends the search |
| FullTextSession.Session.FillLoop | js/search/full-text-session.js:179-188 | the fill loop ends with the search finished, `targetCount` matches held, or the search replaced |
| FullTextSession.Session.FillMatchesUntil | js/search/full-text-session.js:171-192 | nothing happens while a fill runs, after the search finished or once `targetCount` matches are held; otherwise the matches grow in reading order within bounds and `loading` is cleared afterwards |

## Left out

- The DOM and page wiring are not part of this model. That covers rendering, event
  handlers, `createFavoriteToggleControl`, `createFavoriteRemoveControl`, the option
  elements `populateCategoryFilter` creates, and the metadata rows of the book details page.
  `populateCategoryFilter` is modelled as the value it chooses, with the select element's
  presence as a flag.
- Console output and the wording of messages are not modelled. The validator's messages are
  a datatype with one constructor per message kind.
- `localeCompare` sorting is not modelled. The author and category groups come out in order
  of first appearance, and the unreferenced folders of the validator in listing order. Every
  stated group property holds in any order.
- Unicode NFC normalisation is taken as the identity, so texts are assumed to be in NFC
  already. `toLowerCase` folds only the ASCII letters.
- `URLSearchParams` and `URL` are modelled as a sequence of name/value pairs with the
  `get`, `set` and `delete` semantics. Percent-encoding and the rest of the URL are not
  modelled. `getFallbackHref`, `getRequestedReaderState` and `syncReaderStateToUrl` read or
  write `window.location` and history, and are not modelled.
- Numbers are whole numbers, a fraction kept as its text, `NaN` or an infinity. `parseInt`
  reads an optional sign and decimal digits. Exponent and hexadecimal forms of `Number(...)`,
  decimal-point forms of a whole number such as `Number("5.0")` or `Number("5.")`, and the
  precision limits of very long digit strings are not modelled; `Number(...)` of such a text
  is taken as not an integer.
- `JSON.parse` and `JSON.stringify` are not modelled. A storage slot holds nothing, text
  that does not parse, or a parsed value.
- Persistence.ReadStore: a stored `books` that is an array passes the source's object test
  and is kept; the model reads it as no records. This module only ever writes an object
  there.
- Persistence.LoadBookProgress: on a stored array `books` the source finds the element whose
  index is the id, and `Array.prototype` for `__proto__`; both are left out with the array
  case above. The `__proto__` lookup on an object is modelled.
- Persistence.Storage.SaveBookProgress: on a stored array `books` the source sets the
  element at an index id, and sets a property that `JSON.stringify` drops for any other id;
  the model, reading the array as no records, stores an object with the one record.
- Persistence.LoadAfterSave: does not cover a stored array `books`, where a save under an id
  that is not an array index is lost.
- Persistence.Storage.WriteStore: a refused `setItem` returns `false`, and the model gives
  the storage a fixed `writable` flag rather than modelling the quota.
- FavoritesStore.Store.WriteFavorites: the model assumes `setItem` succeeds. The source lets
  a storage exception escape here.
- `loadReaderPreferences` and `saveReaderPreferences` only store the font size, and are not
  modelled. `Date.now()` in `saveBookProgress` is a parameter.
- `getBookCategories` and `buildReaderUrlWithState` are not part of this model. The books'
  categories are given as a function, and the "continue reading" entry carries the arguments
  of its reader link rather than the link.
- `fetch` in `fetchBookParts` is a function from URL to a response. A response is a text, a
  missing part or a network error.
- FullTextSession: the helpers passed in by the search page are not modelled. These are
  `fetchBookPart`, `getBookId`, `getBookPartCount`, `splitPartToPages`, `normalizeLine` and
  `buildMatch`; they come in as the fields of `Deps`. The search page sets
  `maxStoredMatches` to 2000 and `pageScanChunkSize` to 3; the model takes both as inputs.
- FullTextSession.Session.FillMatchesUntil: requires `pageScanChunkSize >= 1`. With 0,
  `fillMatchesUntil` would loop for ever while the search stays current.
- FullTextSession.Session.FillMatchesUntil: requires that a replaced search never becomes
  current again (`Token.Monotone`).
- `yieldToBrowser` is a no-op. The `await`s only wait for the helpers, so a session runs as
  a sequence of steps; two fills never interleave.
- FullTextSession.Session.ScanPageForMatches: an exception from `buildMatch` is the only
  exception that reaches the `catch` of `fillMatchesUntil`. `error` records only whether
  one happened.
- The `!session` check of `fillMatchesUntil` is left out, because a `Session` is never null.
  A fetched part that is `null` is the `Missing` outcome.
- ValidateBooks.Validate: failures of `readFile`, `JSON.parse` and `readdir` are absent
  inputs that stop the check. `fs.access` is a predicate over paths.
- ReaderParser: `escapeHtml` and the highlighter's HTML are plain strings; no markup is
  parsed.
- BookDetails.FormatPrimitiveValue: the yes/no words for booleans and the text of other
  values are given by the definition only, with no lemma beyond the number case.

## Findings

| source | as written | input that shows it | evidently intended | confidence | as-written member | corrected member |
|---|---|---|---|---|---|---|
| js/book-details-page.js:70-78 | `METADATA_LABELS[key]` also finds the names every object inherits from `Object.prototype` | the key `valueOf` is labelled with the inherited function instead of the text `valueOf` | only the table's own five keys get a fixed label; every other key is shown with `_` and `-` runs replaced by a space | not executed | BookDetails.ValueOfKeyMislabelled | BookDetails.MetadataLabelCases |
