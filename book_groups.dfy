/** What js/authors-data.js and js/categories-data.js share: filtering the book list with
    a test on each book, and grouping books under each of their names (authors or
    categories) in a `Map` from name to the books that carry it. */
module BookGroups {
  import opened Strings
  import Json

  /** `books.filter(keep)`. */
  function Filter(books: seq<Json.Value>, keep: Json.Value -> bool): (r: seq<Json.Value>)
    ensures |r| <= |books|
  {
    if books == [] then []
    else
      var last := books[|books| - 1];
      Filter(books[..|books| - 1], keep) + (if keep(last) then [last] else [])
  }

  /** Filtering keeps exactly the books that pass. */
  lemma {:induction false} FilterMembers(books: seq<Json.Value>, keep: Json.Value -> bool, x: Json.Value)
    ensures x in Filter(books, keep) <==> x in books && keep(x)
  {
    if books != [] {
      var init := books[..|books| - 1];
      FilterMembers(init, keep, x);
      assert books == init + [books[|books| - 1]];
    }
  }

  /** Filtering keeps the books' order: it distributes over concatenation. */
  lemma {:induction false} FilterAppend(a: seq<Json.Value>, b: seq<Json.Value>, keep: Json.Value -> bool)
    ensures Filter(a + b, keep) == Filter(a, keep) + Filter(b, keep)
  {
    if b == [] {
      assert a + b == a;
    } else {
      var b0 := b[..|b| - 1];
      FilterAppend(a, b0, keep);
      assert (a + b)[..|a + b| - 1] == a + b0;
    }
  }

  /** A test every book passes keeps them all. */
  lemma {:induction false} FilterAll(books: seq<Json.Value>, keep: Json.Value -> bool)
    requires forall i :: 0 <= i < |books| ==> keep(books[i])
    ensures Filter(books, keep) == books
  {
    if books != [] {
      FilterAll(books[..|books| - 1], keep);
    }
  }

  /** The last step of a filter over a prefix. */
  lemma FilterStep(books: seq<Json.Value>, i: nat, keep: Json.Value -> bool)
    requires i < |books|
    ensures Filter(books[..i + 1], keep) == Filter(books[..i], keep) + (if keep(books[i]) then [books[i]] else [])
  {
    var p := books[..i + 1];
    assert p[..|p| - 1] == books[..i] && p[|p| - 1] == books[i];
  }

  /** Names of a book as the grouping needs them: distinct and non-blank. */
  predicate GoodKeys(keys: seq<string>) {
    Distinct(keys) && "" !in keys
  }

  /** Every book's names, in book order. */
  function AllKeys(books: seq<Json.Value>, keysOf: Json.Value -> seq<string>): seq<string> {
    if books == [] then [] else AllKeys(books[..|books| - 1], keysOf) + keysOf(books[|books| - 1])
  }

  /** The groups' names in the `Map`'s order: each name where it first appears. */
  function Names(books: seq<Json.Value>, keysOf: Json.Value -> seq<string>): seq<string> {
    KeepFirst(AllKeys(books, keysOf))
  }

  /** The books that carry `name`, in order. */
  function BooksWith(books: seq<Json.Value>, keysOf: Json.Value -> seq<string>, name: string): seq<Json.Value> {
    Filter(books, b => name in keysOf(b))
  }

  /** A name is among all the names exactly when some book carries it. */
  lemma {:induction false} AllKeysMembers(books: seq<Json.Value>, keysOf: Json.Value -> seq<string>, name: string)
    ensures name in AllKeys(books, keysOf) <==> exists j :: 0 <= j < |books| && name in keysOf(books[j])
  {
    if books != [] {
      var init := books[..|books| - 1];
      AllKeysMembers(init, keysOf, name);
      if exists j :: 0 <= j < |init| && name in keysOf(init[j]) {
        var j :| 0 <= j < |init| && name in keysOf(init[j]);
        assert books[j] == init[j];
      }
      if exists j :: 0 <= j < |books| && name in keysOf(books[j]) {
        var j :| 0 <= j < |books| && name in keysOf(books[j]);
        if j < |init| {
          assert init[j] == books[j];
        }
      }
    }
  }

  /** A name no book carries has no books. */
  lemma {:induction false} BooksWithoutName(books: seq<Json.Value>, keysOf: Json.Value -> seq<string>, name: string)
    requires name !in AllKeys(books, keysOf)
    ensures BooksWith(books, keysOf, name) == []
  {
    if books != [] {
      BooksWithoutName(books[..|books| - 1], keysOf, name);
    }
  }

  /** The names of the groups are distinct, and they are exactly the non-blank names some
      book carries. */
  lemma NamesExact(books: seq<Json.Value>, keysOf: Json.Value -> seq<string>, name: string)
    ensures Distinct(Names(books, keysOf))
    ensures name in Names(books, keysOf) <==> name != "" && exists j :: 0 <= j < |books| && name in keysOf(books[j])
  {
    KeepFirstDistinct(AllKeys(books, keysOf));
    KeepFirstMembers(AllKeys(books, keysOf), name);
    AllKeysMembers(books, keysOf, name);
  }

  /** Each occurrence of a book in the list is in the group of each of its names, and in no
      other group. */
  lemma BookInItsGroups(books: seq<Json.Value>, keysOf: Json.Value -> seq<string>, name: string, j: nat)
    requires j < |books|
    ensures books[j] in BooksWith(books, keysOf, name) <==> name in keysOf(books[j])
    ensures |BooksWith(books, keysOf, name)| <= |books|
  {
    FilterMembers(books, b => name in keysOf(b), books[j]);
  }

  /** A group as listed: its name, its books and their number. */
  datatype Group = Group(name: string, books: seq<Json.Value>, count: nat)

  /** One more name of the current book, as the grouping adds it. */
  lemma KeyStep(done: seq<string>, keys: seq<string>, k: nat)
    requires k < |keys|
    ensures (done + keys[..k + 1])[..|done + keys[..k + 1]| - 1] == done + keys[..k]
    ensures (done + keys[..k + 1])[|done + keys[..k + 1]| - 1] == keys[k]
  {
  }

  /** The inner loop of the grouping: pushes `book` onto the list of each of its names,
      starting a list (and a place in the order) for a name not seen before. */
  method AddToGroups(order: seq<string>, grouped: map<string, seq<Json.Value>>, done: seq<Json.Value>,
                     book: Json.Value, keysOf: Json.Value -> seq<string>)
    returns (order': seq<string>, grouped': map<string, seq<Json.Value>>)
    requires GoodKeys(keysOf(book))
    requires order == Names(done, keysOf)
    requires forall n :: n in grouped <==> n in order
    requires forall n :: n in grouped ==> grouped[n] == BooksWith(done, keysOf, n)
    ensures order' == Names(done + [book], keysOf)
    ensures forall n :: n in grouped' <==> n in order'
    ensures forall n :: n in grouped' ==> grouped'[n] == BooksWith(done + [book], keysOf, n)
  {
    var keys := keysOf(book);
    ghost var all := AllKeys(done, keysOf);
    order', grouped' := order, grouped;
    assert all + keys[..0] == all;
    for k := 0 to |keys|
      invariant order' == KeepFirst(all + keys[..k])
      invariant forall n :: n in grouped' <==> n in order'
      invariant forall n :: n in grouped' ==>
        grouped'[n] == BooksWith(done, keysOf, n) + (if n in keys[..k] then [book] else [])
    {
      order', grouped' := AddUnderName(order', grouped', keys, k, done, book, keysOf);
    }
    assert keys[..|keys|] == keys;
    AllKeysStep(done, book, keysOf);
    forall n | n in grouped'
      ensures grouped'[n] == BooksWith(done + [book], keysOf, n)
    {
      BooksWithStep(done, book, keysOf, n);
    }
  }

  /** One turn of the inner loop: `book` joins the list of its `k`-th name. */
  method AddUnderName(order: seq<string>, grouped: map<string, seq<Json.Value>>, keys: seq<string>, k: nat,
                      ghost done: seq<Json.Value>, book: Json.Value, ghost keysOf: Json.Value -> seq<string>)
    returns (order': seq<string>, grouped': map<string, seq<Json.Value>>)
    requires k < |keys| && keys == keysOf(book) && GoodKeys(keys)
    requires order == KeepFirst(AllKeys(done, keysOf) + keys[..k])
    requires forall n :: n in grouped <==> n in order
    requires forall n :: n in grouped ==>
      grouped[n] == BooksWith(done, keysOf, n) + (if n in keys[..k] then [book] else [])
    ensures order' == KeepFirst(AllKeys(done, keysOf) + keys[..k + 1])
    ensures forall n :: n in grouped' <==> n in order'
    ensures forall n :: n in grouped' ==>
      grouped'[n] == BooksWith(done, keysOf, n) + (if n in keys[..k + 1] then [book] else [])
  {
    ghost var all := AllKeys(done, keysOf);
    var name := keys[k];
    var isNew := name !in grouped;
    assert && name !in keys[..k]
           && keys[..k + 1] == keys[..k] + [name]
           && KeepFirst(all + keys[..k + 1]) == (if isNew then order + [name] else order)
           && (isNew ==> BooksWith(done, keysOf, name) == [])
    by {
      KeyStep(all, keys, k);
      KeepFirstMembers(all + keys[..k], name);
      if isNew {
        AllKeysOf(done, keysOf, name);
        BooksWithoutName(done, keysOf, name);
      }
    }
    order', grouped' := order, grouped;
    if isNew {
      grouped' := grouped'[name := []];
      order' := order' + [name];
    }
    grouped' := grouped'[name := grouped'[name] + [book]];
  }

  lemma AllKeysStep(done: seq<Json.Value>, book: Json.Value, keysOf: Json.Value -> seq<string>)
    ensures AllKeys(done + [book], keysOf) == AllKeys(done, keysOf) + keysOf(book)
  {
    assert (done + [book])[..|done|] == done;
  }

  lemma BooksWithStep(done: seq<Json.Value>, book: Json.Value, keysOf: Json.Value -> seq<string>, n: string)
    ensures BooksWith(done + [book], keysOf, n) == BooksWith(done, keysOf, n) + (if n in keysOf(book) then [book] else [])
  {
    assert (done + [book])[..|done|] == done;
  }

  /** The names seen so far include every name of the books seen so far. */
  lemma AllKeysOf(done: seq<Json.Value>, keysOf: Json.Value -> seq<string>, name: string)
    ensures name in AllKeys(done, keysOf) ==> name in KeepFirst(AllKeys(done, keysOf)) || name == ""
  {
    KeepFirstMembers(AllKeys(done, keysOf), name);
  }

  /** The grouping of `groupBooksByAuthor` and `groupBooksByCategory`: every book is pushed
      onto the list of each of its names, the `Map` keeping the names in order of first
      appearance. */
  method GroupBooks(books: seq<Json.Value>, keysOf: Json.Value -> seq<string>) returns (groups: seq<Group>)
    requires forall i :: 0 <= i < |books| ==> GoodKeys(keysOf(books[i]))
    ensures |groups| == |Names(books, keysOf)|
    ensures forall g :: 0 <= g < |groups| ==>
      && groups[g].name == Names(books, keysOf)[g]
      && groups[g].books == BooksWith(books, keysOf, groups[g].name)
      && groups[g].count == |groups[g].books|
  {
    var order: seq<string> := [];
    var grouped: map<string, seq<Json.Value>> := map[];
    for i := 0 to |books|
      invariant order == Names(books[..i], keysOf)
      invariant forall n :: n in grouped <==> n in order
      invariant forall n :: n in grouped ==> grouped[n] == BooksWith(books[..i], keysOf, n)
    {
      assert books[..i + 1] == books[..i] + [books[i]];
      order, grouped := AddToGroups(order, grouped, books[..i], books[i], keysOf);
    }
    assert books[..|books|] == books;
    groups := seq(|order|, g requires 0 <= g < |order| => Group(order[g], grouped[order[g]], |grouped[order[g]]|));
  }
}
