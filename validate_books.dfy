/** The check of the book list and the book folders (scripts/validate-books.mjs). A first pass
    over `books/list.json` reports entries that are not objects, have no id or repeat an id,
    and warns of empty titles; a second pass reports missing book folders and part files; a
    last look at the `books` folder warns of folders no entry names. The file system is
    given: the list file as its parsed value (`None` when it cannot be read or parsed),
    whether a book folder exists, whether a file in it exists, and the folder's entries
    (`None` when they cannot be listed). */
module ValidateBooks {
  import opened Wrappers
  import opened Strings
  import Json
  import BooksMeta

  /** `normalizeParts(value)`: `parseInt(String(value ?? ''), 10)` when that is at least 1,
      else 1. */
  function NormalizeParts(value: Json.Value): (n: int)
    ensures n >= 1
  {
    match ParseIntPrefix(Json.StringOrEmpty(value))
    case Some(parsed) => if parsed < 1 then 1 else parsed
    case None => 1
  }

  /** The part count is the parsed count whenever that is at least 1, and 1 otherwise; a
      whole number of parts counts as itself. */
  lemma NormalizePartsCases(value: Json.Value, n: int)
    ensures ParseIntPrefix(Json.StringOrEmpty(value)).Some? && ParseIntPrefix(Json.StringOrEmpty(value)).value >= 1
      ==> NormalizeParts(value) == ParseIntPrefix(Json.StringOrEmpty(value)).value
    ensures ParseIntPrefix(Json.StringOrEmpty(value)).None? || ParseIntPrefix(Json.StringOrEmpty(value)).value < 1
      ==> NormalizeParts(value) == 1
    ensures n >= 1 && value == Json.Number(Json.Int(n)) ==> NormalizeParts(value) == n
  {
    Json.ParseIntOfInteger(n);
  }

  /** `partFileName(partNumber)`: `book.txt` for the first part, `book<n>.txt` after it. */
  function PartFileName(partNumber: int): string {
    if partNumber == 1 then "book.txt" else "book" + IntToString(partNumber) + ".txt"
  }

  /** The part numbers of the name `book<n>.txt`. */
  lemma NumberedFileName(n: nat)
    requires n >= 2
    ensures PartFileName(n) == "book" + NatToString(n) + ".txt"
    ensures PartFileName(n)[4] != '.'
  {
  }

  /** Different parts have different file names, so each part is looked for under a name
      of its own. */
  lemma PartFileNamesDiffer(p: nat, q: nat)
    requires 1 <= p && 1 <= q && p != q
    ensures PartFileName(p) != PartFileName(q)
  {
    if p == 1 || q == 1 {
      if p != 1 {
        NumberedFileName(p);
        assert PartFileName(q)[4] == '.';
      } else {
        NumberedFileName(q);
        assert PartFileName(p)[4] == '.';
      }
    } else {
      NumberedFileName(p);
      NumberedFileName(q);
      if PartFileName(p) == PartFileName(q) {
        DigitsBetween(NatToString(p), NatToString(q));
        DigitsValueOfNatToString(p);
        DigitsValueOfNatToString(q);
        assert false;
      }
    }
  }

  /** Digit runs between the same text are the same run. */
  lemma DigitsBetween(a: string, b: string)
    requires AllDigits(a) && AllDigits(b)
    requires "book" + a + ".txt" == "book" + b + ".txt"
    ensures a == b
  {
    var s := "book" + a + ".txt";
    var t := "book" + b + ".txt";
    assert |a| == |b|;
    forall i | 0 <= i < |a|
      ensures a[i] == b[i]
    {
      assert s[4 + i] == a[i] && t[4 + i] == b[i];
    }
  }

  /** What the check reports, one message per line of its output. */
  datatype Message =
    | NotAnObject(itemNumber: int)
    | MissingId(itemNumber: int)
    | DuplicateId(id: string)
    | EmptyTitle(id: string)
    | MissingDirectory(id: string)
    | MissingFile(id: string, fileName: string)
    | UnreferencedDirectories(names: seq<string>)

  /** An entry of the `books` folder. */
  datatype DirEntry = DirEntry(name: string, isDirectory: bool)

  /** How the check ends: with its errors and warnings after reading `books` entries, or
      stopped by an exception. */
  datatype Outcome =
    | Finished(bookCount: nat, errors: seq<Message>, warnings: seq<Message>)
    | Aborted(reason: string)

  /** A book's id as both passes read it (`normalizeId(book.id)`). */
  function BookId(book: Json.Value): string {
    BooksMeta.NormalizeId(Json.Get(book, "id"))
  }

  /** What the first pass has gathered: its errors and warnings and the accepted ids. */
  datatype Pass = Pass(errors: seq<Message>, warnings: seq<Message>, ids: set<string>)

  /** The first pass on the entry at `index`. */
  function EntryStep(p: Pass, book: Json.Value, index: int): Pass {
    if !book.Obj? then p.(errors := p.errors + [NotAnObject(index + 1)])
    else
      var id := BookId(book);
      if id == "" then p.(errors := p.errors + [MissingId(index + 1)])
      else if id in p.ids then p.(errors := p.errors + [DuplicateId(id)])
      else
        var title := Trim(Json.StringOrEmpty(Json.Get(book, "title")));
        Pass(p.errors, p.warnings + (if title == "" then [EmptyTitle(id)] else []), p.ids + {id})
  }

  /** The first pass over the entries. */
  function FirstPass(books: seq<Json.Value>): Pass {
    if books == [] then Pass([], [], {})
    else EntryStep(FirstPass(books[..|books| - 1]), books[|books| - 1], |books| - 1)
  }

  lemma FirstPassStep(books: seq<Json.Value>, i: nat)
    requires i < |books|
    ensures FirstPass(books[..i + 1]) == EntryStep(FirstPass(books[..i]), books[i], i)
  {
    var p := books[..i + 1];
    assert p[..|p| - 1] == books[..i] && p[|p| - 1] == books[i];
  }

  /** One entry adds its id when it is an object with a non-blank id, and nothing else. */
  lemma EntryStepIds(p: Pass, book: Json.Value, index: int)
    ensures EntryStep(p, book, index).ids == p.ids + (if book.Obj? && BookId(book) != "" then {BookId(book)} else {})
  {
  }

  /** An id is accepted exactly when some object entry has it and it is not blank. */
  lemma {:induction false} FirstPassIds(books: seq<Json.Value>, x: string)
    ensures x in FirstPass(books).ids <==>
      x != "" && exists i :: 0 <= i < |books| && books[i].Obj? && BookId(books[i]) == x
  {
    if books != [] {
      var init := books[..|books| - 1];
      FirstPassIds(init, x);
      EntryStepIds(FirstPass(init), books[|books| - 1], |books| - 1);
      if exists i :: 0 <= i < |init| && init[i].Obj? && BookId(init[i]) == x {
        var i :| 0 <= i < |init| && init[i].Obj? && BookId(init[i]) == x;
        assert books[i] == init[i];
      }
      if exists i :: 0 <= i < |books| && books[i].Obj? && BookId(books[i]) == x {
        var i :| 0 <= i < |books| && books[i].Obj? && BookId(books[i]) == x;
        if i < |init| {
          assert init[i] == books[i];
        }
      }
    }
  }

  /** One entry adds one error or one new id, an error of the first pass's kinds, and a
      warning only for the id it adds. */
  lemma EntryStepAccounts(p: Pass, book: Json.Value, index: int)
    ensures |EntryStep(p, book, index).errors| + |EntryStep(p, book, index).ids| == |p.errors| + |p.ids| + 1
    ensures EntryStep(p, book, index).errors[..|p.errors|] == p.errors
    ensures forall k :: |p.errors| <= k < |EntryStep(p, book, index).errors| ==>
      EntryStep(p, book, index).errors[k].NotAnObject? || EntryStep(p, book, index).errors[k].MissingId?
      || EntryStep(p, book, index).errors[k].DuplicateId?
    ensures EntryStep(p, book, index).warnings[..|p.warnings|] == p.warnings
    ensures forall k :: |p.warnings| <= k < |EntryStep(p, book, index).warnings| ==>
      EntryStep(p, book, index).warnings[k] == EmptyTitle(BookId(book))
      && BookId(book) in EntryStep(p, book, index).ids
    ensures p.ids <= EntryStep(p, book, index).ids
  {
    if book.Obj? && BookId(book) != "" && BookId(book) !in p.ids {
      assert |p.ids + {BookId(book)}| == |p.ids| + 1;
    }
  }

  /** Every entry either adds one error or one new id, so the errors and the accepted ids
      together number the entries; the errors are only of the first pass's three kinds, and
      every warning is an empty title of an accepted id. */
  lemma {:induction false} FirstPassAccounts(books: seq<Json.Value>)
    ensures |FirstPass(books).errors| + |FirstPass(books).ids| == |books|
    ensures forall k :: 0 <= k < |FirstPass(books).errors| ==>
      FirstPass(books).errors[k].NotAnObject? || FirstPass(books).errors[k].MissingId?
      || FirstPass(books).errors[k].DuplicateId?
    ensures forall k :: 0 <= k < |FirstPass(books).warnings| ==>
      FirstPass(books).warnings[k].EmptyTitle? && FirstPass(books).warnings[k].id in FirstPass(books).ids
  {
    if books != [] {
      FirstPassAccounts(books[..|books| - 1]);
      EntryStepAccounts(FirstPass(books[..|books| - 1]), books[|books| - 1], |books| - 1);
    }
  }

  /** The entry at `index` as the first pass judges it: a non-object, a blank id or an id an
      earlier object entry has adds exactly one error; the first entry with an id adds the
      id and no error, and a warning exactly when its title is blank. */
  lemma EntryJudged(books: seq<Json.Value>, i: nat)
    requires i < |books|
    ensures !books[i].Obj? ==>
      FirstPass(books[..i + 1]).errors == FirstPass(books[..i]).errors + [NotAnObject(i + 1)]
    ensures books[i].Obj? && BookId(books[i]) == "" ==>
      FirstPass(books[..i + 1]).errors == FirstPass(books[..i]).errors + [MissingId(i + 1)]
    ensures books[i].Obj? && BookId(books[i]) != "" ==>
      ((exists j :: 0 <= j < i && books[j].Obj? && BookId(books[j]) == BookId(books[i]))
       <==> FirstPass(books[..i + 1]).errors == FirstPass(books[..i]).errors + [DuplicateId(BookId(books[i]))])
    ensures (books[i].Obj? && BookId(books[i]) != "" &&
             (forall j :: 0 <= j < i && books[j].Obj? ==> BookId(books[j]) != BookId(books[i]))) ==>
      && FirstPass(books[..i + 1]).errors == FirstPass(books[..i]).errors
      && BookId(books[i]) in FirstPass(books[..i + 1]).ids
      && (|FirstPass(books[..i + 1]).warnings| == |FirstPass(books[..i]).warnings| + 1
          <==> Trim(Json.StringOrEmpty(Json.Get(books[i], "title"))) == "")
  {
    FirstPassStep(books, i);
    var id := BookId(books[i]);
    FirstPassIds(books[..i], id);
    if exists j :: 0 <= j < |books[..i]| && books[..i][j].Obj? && BookId(books[..i][j]) == id {
      var j :| 0 <= j < |books[..i]| && books[..i][j].Obj? && BookId(books[..i][j]) == id;
      assert books[j] == books[..i][j];
    }
    if exists j :: 0 <= j < i && books[j].Obj? && BookId(books[j]) == id {
      var j :| 0 <= j < i && books[j].Obj? && BookId(books[j]) == id;
      assert books[..i][j] == books[j];
    }
  }

  /** The error for each part of a book that is missing, parts 1 to `parts` in order. */
  function MissingFiles(id: string, parts: int, fileExists: (string, string) -> bool): (ms: seq<Message>)
    ensures |ms| <= if parts < 0 then 0 else parts
    ensures forall k :: 0 <= k < |ms| ==> ms[k].MissingFile? && ms[k].id == id
    decreases parts
  {
    if parts < 1 then []
    else
      var missing := if fileExists(id, PartFileName(parts)) then [] else [MissingFile(id, PartFileName(parts))];
      MissingFiles(id, parts - 1, fileExists) + missing
  }

  /** The files looked for are exactly the `parts` part files: a part file is reported
      exactly when its number is in range and it is missing, and every report names such a
      part. */
  lemma {:induction false} MissingFilesExact(id: string, parts: int, fileExists: (string, string) -> bool, p: int)
    requires p >= 1
    ensures MissingFile(id, PartFileName(p)) in MissingFiles(id, parts, fileExists)
      <==> p <= parts && !fileExists(id, PartFileName(p))
    ensures forall k :: 0 <= k < |MissingFiles(id, parts, fileExists)| ==>
      exists q :: 1 <= q <= parts && MissingFiles(id, parts, fileExists)[k] == MissingFile(id, PartFileName(q))
    decreases parts
  {
    if parts >= 1 {
      MissingFilesExact(id, parts - 1, fileExists, p);
      if p != parts {
        PartFileNamesDiffer(p, parts);
      }
    }
  }

  /** With no part file there, every part is reported, one error each. */
  lemma {:induction false} AllPartsMissing(id: string, parts: int, fileExists: (string, string) -> bool)
    requires parts >= 0
    requires forall q :: 1 <= q <= parts ==> !fileExists(id, PartFileName(q))
    ensures |MissingFiles(id, parts, fileExists)| == parts
    decreases parts
  {
    if parts >= 1 {
      AllPartsMissing(id, parts - 1, fileExists);
    }
  }

  /** The second pass on one entry: nothing for a blank id, the missing folder, or the
      missing part files. */
  function BookErrors(book: Json.Value, dirExists: string -> bool, fileExists: (string, string) -> bool): seq<Message> {
    var id := BookId(book);
    if id == "" then []
    else if !dirExists(id) then [MissingDirectory(id)]
    else MissingFiles(id, NormalizeParts(Json.Get(book, "parts")), fileExists)
  }

  /** Whether an entry is `null`, whose `id` the second pass cannot read. */
  predicate Unreadable(book: Json.Value) {
    book.Null? || book.Undefined?
  }

  /** The second pass's errors over entries none of which is `null`. */
  function BooksErrors(books: seq<Json.Value>, dirExists: string -> bool, fileExists: (string, string) -> bool): seq<Message> {
    if books == [] then []
    else BooksErrors(books[..|books| - 1], dirExists, fileExists) + BookErrors(books[|books| - 1], dirExists, fileExists)
  }

  lemma BooksErrorsStep(books: seq<Json.Value>, i: nat, dirExists: string -> bool, fileExists: (string, string) -> bool)
    requires i < |books|
    ensures BooksErrors(books[..i + 1], dirExists, fileExists)
      == BooksErrors(books[..i], dirExists, fileExists) + BookErrors(books[i], dirExists, fileExists)
  {
    var p := books[..i + 1];
    assert p[..|p| - 1] == books[..i] && p[|p| - 1] == books[i];
  }

  /** The second pass: `None` when it reaches a `null` entry and throws, else its errors. */
  function SecondPass(books: seq<Json.Value>, dirExists: string -> bool, fileExists: (string, string) -> bool): Option<seq<Message>> {
    if exists i :: 0 <= i < |books| && Unreadable(books[i]) then None
    else Some(BooksErrors(books, dirExists, fileExists))
  }

  /** One entry's errors are missing folders and part files under its own, non-blank id. */
  lemma BookErrorsReport(book: Json.Value, dirExists: string -> bool, fileExists: (string, string) -> bool)
    ensures forall k :: 0 <= k < |BookErrors(book, dirExists, fileExists)| ==>
      && (BookErrors(book, dirExists, fileExists)[k].MissingDirectory? || BookErrors(book, dirExists, fileExists)[k].MissingFile?)
      && BookErrors(book, dirExists, fileExists)[k].id == BookId(book) != ""
  {
    var id := BookId(book);
    var errors := BookErrors(book, dirExists, fileExists);
    if id != "" && dirExists(id) {
      var ms := MissingFiles(id, NormalizeParts(Json.Get(book, "parts")), fileExists);
      assert errors == ms;
      forall k | 0 <= k < |errors|
        ensures errors[k].MissingFile? && errors[k].id == id
      {
        assert errors[k] == ms[k];
      }
    }
  }

  /** The ids of the entries, in order. */
  function EntryIds(books: seq<Json.Value>): (ids: seq<string>)
    ensures |ids| == |books|
  {
    if books == [] then [] else EntryIds(books[..|books| - 1]) + [BookId(books[|books| - 1])]
  }

  /** The id of each entry is among the entry ids. */
  lemma {:induction false} EntryIdsHave(books: seq<Json.Value>, i: nat)
    requires i < |books|
    ensures BookId(books[i]) in EntryIds(books)
  {
    if i < |books| - 1 {
      EntryIdsHave(books[..|books| - 1], i);
    }
  }

  /** The second pass reports only missing folders and missing part files, and names only
      non-blank ids that entries have. */
  lemma {:induction false} SecondPassReports(books: seq<Json.Value>, dirExists: string -> bool, fileExists: (string, string) -> bool)
    ensures forall k :: 0 <= k < |BooksErrors(books, dirExists, fileExists)| ==>
      && (BooksErrors(books, dirExists, fileExists)[k].MissingDirectory? || BooksErrors(books, dirExists, fileExists)[k].MissingFile?)
      && BooksErrors(books, dirExists, fileExists)[k].id != ""
      && BooksErrors(books, dirExists, fileExists)[k].id in EntryIds(books)
  {
    if books != [] {
      var init := books[..|books| - 1];
      var last := books[|books| - 1];
      SecondPassReports(init, dirExists, fileExists);
      BookErrorsReport(last, dirExists, fileExists);
      var before: seq<Message> := BooksErrors(init, dirExists, fileExists);
      var added: seq<Message> := BookErrors(last, dirExists, fileExists);
      var all := BooksErrors(books, dirExists, fileExists);
      assert all == before + added;
      forall k | 0 <= k < |all|
        ensures && (all[k].MissingDirectory? || all[k].MissingFile?)
                && all[k].id != "" && all[k].id in EntryIds(books)
      {
        if k < |before| {
          assert all[k] == before[k];
        } else {
          assert all[k] in added;
        }
      }
    }
  }

  /** The folders no accepted id names, in the order they are listed. */
  function Unreferenced(entries: seq<DirEntry>, ids: set<string>): seq<string> {
    if entries == [] then []
    else
      var e := entries[|entries| - 1];
      Unreferenced(entries[..|entries| - 1], ids) + (if e.isDirectory && e.name !in ids then [e.name] else [])
  }

  /** A name is listed exactly when it is a folder and no accepted id. */
  lemma {:induction false} UnreferencedExact(entries: seq<DirEntry>, ids: set<string>, name: string)
    ensures name in Unreferenced(entries, ids) <==> name !in ids && DirEntry(name, true) in entries
  {
    if entries != [] {
      var init := entries[..|entries| - 1];
      UnreferencedExact(init, ids, name);
      assert entries == init + [entries[|entries| - 1]];
    }
  }

  /** The whole check: the list must be a JSON array, then the two passes and the look at
      the folder. */
  function Validation(listFile: Option<Json.Value>, dirExists: string -> bool,
                      fileExists: (string, string) -> bool, entries: Option<seq<DirEntry>>): Outcome {
    match listFile
    case None => Aborted("books/list.json cannot be read")
    case Some(parsed) =>
      if !parsed.Arr? then Aborted("books/list.json must be a JSON array")
      else ListValidation(parsed.items, dirExists, fileExists, entries)
  }

  /** The check of a list that is an array. */
  function ListValidation(books: seq<Json.Value>, dirExists: string -> bool,
                          fileExists: (string, string) -> bool, entries: Option<seq<DirEntry>>): Outcome {
    var first := FirstPass(books);
    match SecondPass(books, dirExists, fileExists)
    case None => Aborted("an entry of books/list.json is null")
    case Some(missing) =>
      match entries
      case None => Aborted("books cannot be listed")
      case Some(es) => Summary(|books|, first, missing, Unreferenced(es, first.ids))
  }

  /** The report of a check that reaches the end: the first pass's errors, then the missing
      folders and files; the first pass's warnings, then the unreferenced folders if any. */
  function Summary(count: nat, first: Pass, missing: seq<Message>, extra: seq<string>): Outcome {
    Finished(count, first.errors + missing,
             first.warnings + (if extra == [] then [] else [UnreferencedDirectories(extra)]))
  }

  /** The process exit code: 1 when the check stopped or found an error, else 0. */
  function ExitCode(outcome: Outcome): int {
    if outcome.Aborted? || |outcome.errors| > 0 then 1 else 0
  }

  /** A list whose entries all have folders and part files, with distinct non-blank ids,
      passes without an error. */
  lemma CleanListPasses(books: seq<Json.Value>, dirExists: string -> bool, fileExists: (string, string) -> bool,
                        es: seq<DirEntry>)
    requires forall i :: 0 <= i < |books| ==> books[i].Obj? && BookId(books[i]) != ""
    requires forall i, j :: 0 <= i < j < |books| ==> BookId(books[i]) != BookId(books[j])
    requires forall id :: dirExists(id)
    requires forall id, name :: fileExists(id, name)
    ensures ExitCode(Validation(Some(Json.Arr(books)), dirExists, fileExists, Some(es))) == 0
  {
    CleanFirstPass(books);
    CleanSecondPass(books, dirExists, fileExists);
    assert SecondPass(books, dirExists, fileExists) == Some([]);
    var first := FirstPass(books);
    assert ListValidation(books, dirExists, fileExists, Some(es)).errors == first.errors + [];
  }

  lemma {:induction false} CleanFirstPass(books: seq<Json.Value>)
    requires forall i :: 0 <= i < |books| ==> books[i].Obj? && BookId(books[i]) != ""
    requires forall i, j :: 0 <= i < j < |books| ==> BookId(books[i]) != BookId(books[j])
    ensures FirstPass(books).errors == []
  {
    if books != [] {
      var init := books[..|books| - 1];
      CleanFirstPass(init);
      var last := books[|books| - 1];
      forall i | 0 <= i < |init|
        ensures BookId(init[i]) != BookId(last)
      {
        assert init[i] == books[i];
      }
      FirstPassIds(init, BookId(last));
    }
  }

  lemma {:induction false} CleanSecondPass(books: seq<Json.Value>, dirExists: string -> bool, fileExists: (string, string) -> bool)
    requires forall i :: 0 <= i < |books| ==> books[i].Obj?
    requires forall id :: dirExists(id)
    requires forall id, name :: fileExists(id, name)
    ensures BooksErrors(books, dirExists, fileExists) == []
  {
    if books != [] {
      var last := books[|books| - 1];
      CleanSecondPass(books[..|books| - 1], dirExists, fileExists);
      NoMissingFiles(BookId(last), NormalizeParts(Json.Get(last, "parts")), fileExists);
    }
  }

  lemma {:induction false} NoMissingFiles(id: string, parts: int, fileExists: (string, string) -> bool)
    requires forall id, name :: fileExists(id, name)
    ensures MissingFiles(id, parts, fileExists) == []
    decreases parts
  {
    if parts >= 1 {
      NoMissingFiles(id, parts - 1, fileExists);
    }
  }

  /** The first pass of `validate()`. */
  method CheckEntries(books: seq<Json.Value>) returns (errors: seq<Message>, warnings: seq<Message>, ids: set<string>)
    ensures Pass(errors, warnings, ids) == FirstPass(books)
  {
    errors, warnings, ids := [], [], {};
    for index := 0 to |books|
      invariant Pass(errors, warnings, ids) == FirstPass(books[..index])
    {
      FirstPassStep(books, index);
      var book := books[index];
      if !book.Obj? {
        errors := errors + [NotAnObject(index + 1)];
        continue;
      }
      var id := BooksMeta.NormalizeId(Json.Get(book, "id"));
      if id == "" {
        errors := errors + [MissingId(index + 1)];
        continue;
      }
      if id in ids {
        errors := errors + [DuplicateId(id)];
        continue;
      }
      ids := ids + {id};
      var title := Trim(Json.StringOrEmpty(Json.Get(book, "title")));
      if title == "" {
        warnings := warnings + [EmptyTitle(id)];
      }
    }
    assert books[..|books|] == books;
  }

  /** The part loop of the second pass: looks for parts 1 to `parts` in turn. */
  method CheckPartFiles(id: string, parts: int, fileExists: (string, string) -> bool) returns (errors: seq<Message>)
    ensures errors == MissingFiles(id, parts, fileExists)
  {
    errors := [];
    var part := 1;
    while part <= parts
      invariant 1 <= part <= if parts < 1 then 1 else parts + 1
      invariant errors == MissingFiles(id, part - 1, fileExists)
    {
      var fileName := PartFileName(part);
      if !fileExists(id, fileName) {
        errors := errors + [MissingFile(id, fileName)];
      }
      part := part + 1;
    }
  }

  /** The second pass on one entry whose `id` can be read. */
  method CheckBook(book: Json.Value, dirExists: string -> bool, fileExists: (string, string) -> bool)
    returns (errors: seq<Message>)
    ensures errors == BookErrors(book, dirExists, fileExists)
  {
    var id := BooksMeta.NormalizeId(Json.Get(book, "id"));
    if id == "" {
      return [];
    }
    if !dirExists(id) {
      return [MissingDirectory(id)];
    }
    var parts := NormalizeParts(Json.Get(book, "parts"));
    errors := CheckPartFiles(id, parts, fileExists);
  }

  /** The folders of the `books` folder that no accepted id names, in listed order. */
  method ListUnreferenced(dirEntries: seq<DirEntry>, ids: set<string>) returns (extra: seq<string>)
    ensures extra == Unreferenced(dirEntries, ids)
  {
    extra := [];
    for k := 0 to |dirEntries|
      invariant extra == Unreferenced(dirEntries[..k], ids)
    {
      var e := dirEntries[k];
      assert dirEntries[..k + 1][..k] == dirEntries[..k];
      if e.isDirectory && e.name !in ids {
        extra := extra + [e.name];
      }
    }
    assert dirEntries[..|dirEntries|] == dirEntries;
  }

  /** The second pass of `validate()`; `None` when reading an entry's `id` throws. */
  method CheckFolders(books: seq<Json.Value>, dirExists: string -> bool, fileExists: (string, string) -> bool)
    returns (errors: Option<seq<Message>>)
    ensures errors == SecondPass(books, dirExists, fileExists)
  {
    var found: seq<Message> := [];
    for i := 0 to |books|
      invariant forall j :: 0 <= j < i ==> !Unreadable(books[j])
      invariant found == BooksErrors(books[..i], dirExists, fileExists)
    {
      if Unreadable(books[i]) {
        return None;
      }
      var bookErrors := CheckBook(books[i], dirExists, fileExists);
      BooksErrorsStep(books, i, dirExists, fileExists);
      assert forall j :: 0 <= j < i + 1 ==> !Unreadable(books[j]);
      found := found + bookErrors;
    }
    assert books[..|books|] == books;
    errors := Some(found);
  }

  /** `validate()`: the outcome and the exit code it sets. */
  method Validate(listFile: Option<Json.Value>, dirExists: string -> bool,
                  fileExists: (string, string) -> bool, entries: Option<seq<DirEntry>>)
    returns (outcome: Outcome, exitCode: int)
    ensures outcome == Validation(listFile, dirExists, fileExists, entries)
    ensures exitCode == ExitCode(outcome)
  {
    if listFile.None? {
      outcome := Aborted("books/list.json cannot be read");
      return outcome, 1;
    }
    var parsed := listFile.value;
    if !parsed.Arr? {
      outcome := Aborted("books/list.json must be a JSON array");
      return outcome, 1;
    }
    outcome := ValidateList(parsed.items, dirExists, fileExists, entries);
    exitCode := if outcome.Aborted? || |outcome.errors| > 0 then 1 else 0;
  }

  /** The part of `validate()` after the list has been read as an array. */
  method ValidateList(books: seq<Json.Value>, dirExists: string -> bool,
                      fileExists: (string, string) -> bool, entries: Option<seq<DirEntry>>)
    returns (outcome: Outcome)
    ensures outcome == ListValidation(books, dirExists, fileExists, entries)
  {
    var errors, warnings, ids := CheckEntries(books);
    var missing := CheckFolders(books, dirExists, fileExists);
    if missing.None? {
      return Aborted("an entry of books/list.json is null");
    }
    if entries.None? {
      return Aborted("books cannot be listed");
    }
    outcome := Report(|books|, errors, warnings, ids, missing.value, entries.value);
  }

  /** The end of `validate()`: the missing folders and files join the errors, and the
      unreferenced folders, if any, the warnings. */
  method Report(count: nat, errors: seq<Message>, warnings: seq<Message>, ids: set<string>,
                missing: seq<Message>, dirEntries: seq<DirEntry>) returns (outcome: Outcome)
    ensures outcome == Summary(count, Pass(errors, warnings, ids), missing, Unreferenced(dirEntries, ids))
  {
    var extra := ListUnreferenced(dirEntries, ids);
    var allWarnings := warnings;
    if |extra| > 0 {
      allWarnings := allWarnings + [UnreferencedDirectories(extra)];
    }
    outcome := Finished(count, errors + missing, allWarnings);
  }
}
