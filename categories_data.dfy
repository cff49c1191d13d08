/** The categories of the catalogue (js/categories-data.js): a book's category names, the
    books grouped by category, the category page link, and the books of one category.
    `getBookCategories` is not part of this model: a book's raw categories come from a
    given function. */
module CategoriesData {
  import opened Strings
  import Json
  import SearchParams
  import BookGroups
  import CatalogPageCore

  /** `toSafeCategoryName(value)`: the text of the value, trimmed, with `null` and
      `undefined` read as the empty text. */
  function ToSafeCategoryName(value: Json.Value): (r: string)
    ensures Trim(r) == r
    ensures value.Null? || value.Undefined? ==> r == ""
    ensures value.Str? ==> r == Trim(value.s)
  {
    TrimIdempotent(Json.StringOrEmpty(value));
    Trim(Json.StringOrEmpty(value))
  }

  /** Every raw category made safe, in order. */
  function SafeNames(values: seq<Json.Value>): (names: seq<string>)
    ensures |names| == |values|
    ensures forall i :: 0 <= i < |values| ==> names[i] == ToSafeCategoryName(values[i])
  {
    seq(|values|, i requires 0 <= i < |values| => ToSafeCategoryName(values[i]))
  }

  /** `collectBookCategories(book)`: the safe names without blanks and repeats, each where
      it first appears. */
  function CollectBookCategories(categoriesOf: Json.Value -> seq<Json.Value>, book: Json.Value): seq<string> {
    KeepFirst(SafeNames(categoriesOf(book)))
  }

  /** A book's categories are distinct, trimmed and not blank, and they are exactly the
      non-blank safe names of its raw categories. */
  lemma BookCategoriesExact(categoriesOf: Json.Value -> seq<Json.Value>, book: Json.Value, name: string)
    ensures BookGroups.GoodKeys(CollectBookCategories(categoriesOf, book))
    ensures forall i :: 0 <= i < |CollectBookCategories(categoriesOf, book)| ==>
      Trim(CollectBookCategories(categoriesOf, book)[i]) == CollectBookCategories(categoriesOf, book)[i]
    ensures name in CollectBookCategories(categoriesOf, book) <==>
      name != "" && exists j :: 0 <= j < |categoriesOf(book)| && ToSafeCategoryName(categoriesOf(book)[j]) == name
  {
    var raw := SafeNames(categoriesOf(book));
    KeepFirstDistinct(raw);
    KeepFirstMembers(raw, name);
    KeepFirstMembers(raw, "");
    forall i | 0 <= i < |KeepFirst(raw)|
      ensures Trim(KeepFirst(raw)[i]) == KeepFirst(raw)[i]
    {
      KeepFirstMembers(raw, KeepFirst(raw)[i]);
    }
    if name in raw {
      var j :| 0 <= j < |raw| && raw[j] == name;
    }
  }

  /** The categories of each book, as the grouping reads them. */
  function CategoryKeys(categoriesOf: Json.Value -> seq<Json.Value>): Json.Value -> seq<string> {
    book => CollectBookCategories(categoriesOf, book)
  }

  /** `groupBooksByCategory(books)`, before sorting: one group per category, holding the
      books of that category in order, with their number. */
  method GroupBooksByCategory(books: seq<Json.Value>, categoriesOf: Json.Value -> seq<Json.Value>)
    returns (groups: seq<BookGroups.Group>)
    ensures |groups| == |BookGroups.Names(books, CategoryKeys(categoriesOf))|
    ensures forall g :: 0 <= g < |groups| ==>
      && groups[g].name == BookGroups.Names(books, CategoryKeys(categoriesOf))[g]
      && groups[g].books == BookGroups.BooksWith(books, CategoryKeys(categoriesOf), groups[g].name)
      && groups[g].count == |groups[g].books|
  {
    forall i | 0 <= i < |books|
      ensures BookGroups.GoodKeys(CategoryKeys(categoriesOf)(books[i]))
    {
      BookCategoriesExact(categoriesOf, books[i], "");
    }
    groups := BookGroups.GroupBooks(books, CategoryKeys(categoriesOf));
  }

  /** Each occurrence of a book is in the group of each of its categories and in no other,
      and the groups are one per category that some book has, none twice. */
  lemma BookInCategoryGroups(books: seq<Json.Value>, categoriesOf: Json.Value -> seq<Json.Value>, name: string, j: nat)
    requires j < |books|
    ensures Distinct(BookGroups.Names(books, CategoryKeys(categoriesOf)))
    ensures name in BookGroups.Names(books, CategoryKeys(categoriesOf)) <==>
      name != "" && exists k :: 0 <= k < |books| && name in CollectBookCategories(categoriesOf, books[k])
    ensures books[j] in BookGroups.BooksWith(books, CategoryKeys(categoriesOf), name)
      <==> name in CollectBookCategories(categoriesOf, books[j])
  {
    BookGroups.NamesExact(books, CategoryKeys(categoriesOf), name);
    BookGroups.BookInItsGroups(books, CategoryKeys(categoriesOf), name, j);
    if exists k :: 0 <= k < |books| && name in CategoryKeys(categoriesOf)(books[k]) {
      var k :| 0 <= k < |books| && name in CategoryKeys(categoriesOf)(books[k]);
      assert name in CollectBookCategories(categoriesOf, books[k]);
    }
    if exists k :: 0 <= k < |books| && name in CollectBookCategories(categoriesOf, books[k]) {
      var k :| 0 <= k < |books| && name in CollectBookCategories(categoriesOf, books[k]);
      assert name in CategoryKeys(categoriesOf)(books[k]);
    }
  }

  /** `buildCategoryPageUrl(categoryName)`; percent-encoding of the name is not part of
      this model. */
  function BuildCategoryPageUrl(categoryName: Json.Value): string {
    var name := ToSafeCategoryName(categoryName);
    if name == "" then "categories.html"
    else "category.html?" + SearchParams.ToQueryString(SearchParams.Set([], "category", name))
  }

  /** The categories index for a blank name, otherwise the category page naming the safe
      name. */
  lemma CategoryPageUrl(categoryName: Json.Value)
    ensures BuildCategoryPageUrl(categoryName) == "categories.html" <==> ToSafeCategoryName(categoryName) == ""
    ensures ToSafeCategoryName(categoryName) != "" ==>
      BuildCategoryPageUrl(categoryName) == "category.html?category=" + ToSafeCategoryName(categoryName)
  {
    var name := ToSafeCategoryName(categoryName);
    if name != "" {
      SearchParams.OnePairQuery("category", name);
      assert "category" + "=" == "category=";
      ConcatAssoc("category.html?", "category=", name);
      assert "category.html?" + "category=" == "category.html?category=";
      DifferentPrefix("category.html?", "categories.html", "category=" + name, 8);
    }
  }

  /** `filterBooksByCategory(books, categoryName)`. */
  function FilterBooksByCategory(books: seq<Json.Value>, categoriesOf: Json.Value -> seq<Json.Value>,
                                 categoryName: Json.Value): seq<Json.Value> {
    CatalogPageCore.FilterByNormalizedName(books, CategoryKeys(categoriesOf), categoryName)
  }

  /** No books for a blank name; otherwise exactly the books with a category whose normal
      form is the name's, in order. */
  lemma FilterByCategoryKeeps(books: seq<Json.Value>, categoriesOf: Json.Value -> seq<Json.Value>,
                              categoryName: Json.Value, book: Json.Value)
    ensures CatalogPageCore.NormalizeCatalogText(categoryName) == "" ==>
      FilterBooksByCategory(books, categoriesOf, categoryName) == []
    ensures |FilterBooksByCategory(books, categoriesOf, categoryName)| <= |books|
    ensures book in FilterBooksByCategory(books, categoriesOf, categoryName) <==>
      && CatalogPageCore.NormalizeCatalogText(categoryName) != ""
      && book in books
      && CatalogPageCore.HasNormalizedName(CollectBookCategories(categoriesOf, book),
                                           CatalogPageCore.NormalizeCatalogText(categoryName))
  {
    CatalogPageCore.FilterByNormalizedNameKeeps(books, CategoryKeys(categoriesOf), categoryName, book);
    assert CategoryKeys(categoriesOf)(book) == CollectBookCategories(categoriesOf, book);
  }

  /** The category page of a group's name lists every book of the group. */
  lemma GroupedBookIsListed(books: seq<Json.Value>, categoriesOf: Json.Value -> seq<Json.Value>, name: string, j: nat)
    requires j < |books| && name in CollectBookCategories(categoriesOf, books[j])
    ensures books[j] in FilterBooksByCategory(books, categoriesOf, Json.Str(name))
  {
    BookCategoriesExact(categoriesOf, books[j], name);
    var i :| 0 <= i < |CollectBookCategories(categoriesOf, books[j])| && CollectBookCategories(categoriesOf, books[j])[i] == name;
    assert name in CategoryKeys(categoriesOf)(books[j]);
    CatalogPageCore.ListedUnderOwnName(books, CategoryKeys(categoriesOf), name, j);
  }
}
