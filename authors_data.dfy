/** The authors of the catalogue (js/authors-data.js): the author names a book record gives
    under its eight author fields, the books grouped by author, the author page link, and
    the books of one author. */
module AuthorsData {
  import opened Strings
  import Json
  import SearchParams
  import BookGroups
  import CatalogPageCore

  /** The names `collectAuthorNames(value, output)` pushes: those of every element of an
      array, in order, nothing for `null` or `undefined`, and otherwise the trimmed text
      when it is not blank. */
  function AuthorNames(value: Json.Value): seq<string>
    decreases value, 1
  {
    match value
    case Arr(items) => ItemNames(items)
    case Null => []
    case Undefined => []
    case _ =>
      var normalized := Trim(Json.ToJsString(value));
      if normalized == "" then [] else [normalized]
  }

  /** The names of the elements of an array, in order. */
  function ItemNames(items: seq<Json.Value>): seq<string>
    decreases items, 0
  {
    if items == [] then [] else ItemNames(items[..|items| - 1]) + AuthorNames(items[|items| - 1])
  }

  /** Every collected name is trimmed and not blank. */
  lemma {:induction false} AuthorNamesClean(value: Json.Value)
    ensures forall i :: 0 <= i < |AuthorNames(value)| ==> AuthorNames(value)[i] != "" && Trim(AuthorNames(value)[i]) == AuthorNames(value)[i]
    decreases value, 1
  {
    match value
    case Arr(items) => ItemNamesClean(items);
    case Null =>
    case Undefined =>
    case _ => TrimIdempotent(Json.ToJsString(value));
  }

  lemma {:induction false} ItemNamesClean(items: seq<Json.Value>)
    ensures forall i :: 0 <= i < |ItemNames(items)| ==> ItemNames(items)[i] != "" && Trim(ItemNames(items)[i]) == ItemNames(items)[i]
    decreases items, 0
  {
    if items != [] {
      ItemNamesClean(items[..|items| - 1]);
      AuthorNamesClean(items[|items| - 1]);
    }
  }

  /** The names of the first `i` elements and then of element `i`. */
  lemma ItemNamesStep(items: seq<Json.Value>, i: nat)
    requires i < |items|
    ensures ItemNames(items[..i + 1]) == ItemNames(items[..i]) + AuthorNames(items[i])
  {
    var p := items[..i + 1];
    assert p[..|p| - 1] == items[..i] && p[|p| - 1] == items[i];
  }

  /** `collectAuthorNames(value, output)`: appends the names found in `value` to `output`,
      descending into arrays. */
  method CollectAuthorNames(value: Json.Value, output: seq<string>) returns (out: seq<string>)
    ensures out == output + AuthorNames(value)
    decreases value
  {
    if value.Arr? {
      var items := value.items;
      out := output;
      for i := 0 to |items|
        invariant out == output + ItemNames(items[..i])
      {
        ItemNamesStep(items, i);
        out := CollectAuthorNames(items[i], out);
      }
      assert items[..|items|] == items;
      return;
    }
    if value.Null? || value.Undefined? {
      return output;
    }
    var normalized := Trim(Json.ToJsString(value));
    if normalized == "" {
      return output;
    }
    out := output + [normalized];
  }

  /** The eight fields a book's authors are read from, in order. */
  const AuthorFields: seq<string> :=
    ["author", "authors", "writer", "writers", "المؤلف", "المؤلفون", "الكاتب", "الكتّاب"]

  /** The values of the author fields of a book (`undefined` where it has none). */
  function AuthorFieldValues(book: Json.Value): (vs: seq<Json.Value>)
    ensures |vs| == |AuthorFields|
  {
    seq(|AuthorFields|, i requires 0 <= i < |AuthorFields| => Json.Get(book, AuthorFields[i]))
  }

  /** `getBookAuthors(book)`: the collected names without repeats, in order of first
      appearance (the names are never blank, so dropping blanks drops nothing). */
  function GetBookAuthors(book: Json.Value): seq<string> {
    KeepFirst(ItemNames(AuthorFieldValues(book)))
  }

  /** A book's authors are distinct, trimmed and not blank, and they are exactly the names
      its author fields give. */
  lemma BookAuthorsExact(book: Json.Value, name: string)
    ensures BookGroups.GoodKeys(GetBookAuthors(book))
    ensures forall i :: 0 <= i < |GetBookAuthors(book)| ==> Trim(GetBookAuthors(book)[i]) == GetBookAuthors(book)[i]
    ensures name in GetBookAuthors(book) <==> name in ItemNames(AuthorFieldValues(book))
  {
    var raw := ItemNames(AuthorFieldValues(book));
    ItemNamesClean(AuthorFieldValues(book));
    KeepFirstDistinct(raw);
    KeepFirstMembers(raw, name);
    KeepFirstMembers(raw, "");
    forall i | 0 <= i < |GetBookAuthors(book)|
      ensures Trim(GetBookAuthors(book)[i]) == GetBookAuthors(book)[i]
    {
      KeepFirstMembers(raw, GetBookAuthors(book)[i]);
    }
  }

  /** `groupBooksByAuthor(books)`, before sorting: one group per author, holding the books
      of that author in order, with their number. */
  method GroupBooksByAuthor(books: seq<Json.Value>) returns (groups: seq<BookGroups.Group>)
    ensures |groups| == |BookGroups.Names(books, GetBookAuthors)|
    ensures forall g :: 0 <= g < |groups| ==>
      && groups[g].name == BookGroups.Names(books, GetBookAuthors)[g]
      && groups[g].books == BookGroups.BooksWith(books, GetBookAuthors, groups[g].name)
      && groups[g].count == |groups[g].books|
  {
    forall i | 0 <= i < |books|
      ensures BookGroups.GoodKeys(GetBookAuthors(books[i]))
    {
      BookAuthorsExact(books[i], "");
    }
    groups := BookGroups.GroupBooks(books, GetBookAuthors);
  }

  /** `buildAuthorPageUrl(authorName)`; percent-encoding of the name is not part of this
      model. */
  function BuildAuthorPageUrl(authorName: Json.Value): string {
    var name := Trim(Json.StringOrEmpty(authorName));
    if name == "" then "authors.html"
    else "author.html?" + SearchParams.ToQueryString(SearchParams.Set([], "author", name))
  }

  /** The authors index for a blank name, otherwise the author page naming the trimmed
      name. */
  lemma AuthorPageUrl(authorName: Json.Value)
    ensures BuildAuthorPageUrl(authorName) == "authors.html" <==> Trim(Json.StringOrEmpty(authorName)) == ""
    ensures Trim(Json.StringOrEmpty(authorName)) != "" ==>
      BuildAuthorPageUrl(authorName) == "author.html?author=" + Trim(Json.StringOrEmpty(authorName))
  {
    var name := Trim(Json.StringOrEmpty(authorName));
    if name != "" {
      SearchParams.OnePairQuery("author", name);
      assert "author" + "=" == "author=";
      ConcatAssoc("author.html?", "author=", name);
      assert "author.html?" + "author=" == "author.html?author=";
      DifferentPrefix("author.html?", "authors.html", "author=" + name, 6);
    }
  }

  /** `filterBooksByAuthor(books, authorName)`. */
  function FilterBooksByAuthor(books: seq<Json.Value>, authorName: Json.Value): seq<Json.Value> {
    CatalogPageCore.FilterByNormalizedName(books, GetBookAuthors, authorName)
  }

  /** No books for a blank name; otherwise exactly the books with an author whose normal
      form is the name's, in order. */
  lemma FilterByAuthorKeeps(books: seq<Json.Value>, authorName: Json.Value, book: Json.Value)
    ensures CatalogPageCore.NormalizeCatalogText(authorName) == "" ==> FilterBooksByAuthor(books, authorName) == []
    ensures book in FilterBooksByAuthor(books, authorName) <==>
      && CatalogPageCore.NormalizeCatalogText(authorName) != ""
      && book in books
      && CatalogPageCore.HasNormalizedName(GetBookAuthors(book), CatalogPageCore.NormalizeCatalogText(authorName))
  {
    CatalogPageCore.FilterByNormalizedNameKeeps(books, GetBookAuthors, authorName, book);
  }

  /** The author page of a group's name lists every book of the group. */
  lemma GroupedBookIsListed(books: seq<Json.Value>, name: string, j: nat)
    requires j < |books| && name in GetBookAuthors(books[j])
    ensures books[j] in FilterBooksByAuthor(books, Json.Str(name))
  {
    BookAuthorsExact(books[j], name);
    var i :| 0 <= i < |GetBookAuthors(books[j])| && GetBookAuthors(books[j])[i] == name;
    CatalogPageCore.ListedUnderOwnName(books, GetBookAuthors, name, j);
  }
}
