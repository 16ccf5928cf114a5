/** `populate_replace`: the full-replace rebuild of the store from the cleaned
    spreadsheet rows. The schema is dropped and recreated, each dimension
    table is filled with its column's sorted distinct values, then one book
    is inserted per row with its foreign keys resolved through `get_id`. */
module Ingest {
  import opened Wrappers
  import opened StringOrder
  import opened Cleaning
  import opened Store

  /** Why an import fails: `int()` of a missing catalog number, a missing
      title, which sqlite3 cannot bind as a parameter, or a second row with a
      catalog number already inserted (the UNIQUE `book_id` column under a
      plain INSERT). `row` is the zero-based position of the offending row. */
  datatype ImportError =
    | MissingBookId(row: nat)
    | MissingTitle(row: nat)
    | DuplicateBookId(row: nat, bookId: int)

  /** The cleaned value of dimension `d` in a row; the language is always present. */
  function DimValue(r: Row, d: Dim): Option<string> {
    match d
    case Brand => r.brand
    case MachineType => r.machineType
    case Model => r.model
    case Language => Some(r.language)
  }

  /** `df[col].dropna()`: the present values of one column, in row order. */
  function Column(rows: seq<Row>, d: Dim): (vals: seq<string>)
    ensures forall n :: n in vals <==> exists i :: 0 <= i < |rows| && DimValue(rows[i], d) == Some(n)
    decreases |rows|
  {
    if |rows| == 0 then []
    else
      var rest := Column(rows[1..], d);
      assert forall n :: (exists i :: 0 <= i < |rows[1..]| && DimValue(rows[1..][i], d) == Some(n))
                     <==> (exists i :: 1 <= i < |rows| && DimValue(rows[i], d) == Some(n)) by {
        forall n ensures (exists i :: 0 <= i < |rows[1..]| && DimValue(rows[1..][i], d) == Some(n))
                     <==> (exists i :: 1 <= i < |rows| && DimValue(rows[i], d) == Some(n)) {
          if exists i :: 1 <= i < |rows| && DimValue(rows[i], d) == Some(n) {
            var i :| 1 <= i < |rows| && DimValue(rows[i], d) == Some(n);
            assert rows[1..][i - 1] == rows[i];
          }
        }
      }
      match DimValue(rows[0], d)
      case None => rest
      case Some(n) => [n] + rest
  }

  /** The first loop of `populate_replace` for one dimension: `get_id` on each
      of the column's sorted distinct values. */
  function InternColumn(v: Variant, s: Store, rows: seq<Row>, d: Dim): Store {
    s.WithTable(d, InternAll(v, s.Table(d), SortedDistinct(Column(rows, d))))
  }

  /** The four `get_id` calls made for one row in the second loop, in source
      order, with the store they leave behind and the ids they return. */
  datatype Resolved = Resolved(
    store: Store,
    brandId: Option<nat>,
    machineTypeId: Option<nat>,
    modelId: Option<nat>,
    languageId: Option<nat>)

  /** Every internable value of `row` is already a name in its table. */
  predicate Covered(v: Variant, s: Store, row: Row) {
    forall d :: Internable(v, DimValue(row, d)) ==> DimValue(row, d).value in s.Table(d)
  }

  /** The row's four `get_id` calls, each on its own table of `s`; since each
      touches only its own table, running them in sequence gives the same result. */
  function ResolveRow(v: Variant, s: Store, row: Row): Resolved {
    var b := GetId(v, s.brands, row.brand);
    var mt := GetId(v, s.machineTypes, row.machineType);
    var m := GetId(v, s.models, row.model);
    var l := GetId(v, s.languages, Some(row.language));
    Resolved(s.(brands := b.table, machineTypes := mt.table, models := m.table, languages := l.table),
             b.id, mt.id, m.id, l.id)
  }

  /** Some book already in the table has this catalog number. */
  predicate HasBookId(books: seq<Book>, id: int) {
    exists k :: 0 <= k < |books| && books[k].bookId == id
  }

  /** The second loop of `populate_replace`, from row `i` on. */
  function InsertBooks(v: Variant, s: Store, rows: seq<Row>, i: nat): Result<Store, ImportError>
    requires i <= |rows|
    decreases |rows| - i
  {
    if i == |rows| then Success(s)
    else
      var row := rows[i];
      var res := ResolveRow(v, s, row);
      var s' := res.store;
      if row.bookId.None? then Failure(MissingBookId(i))
      else if row.title.None? then Failure(MissingTitle(i))
      else if HasBookId(s'.books, row.bookId.value) then Failure(DuplicateBookId(i, row.bookId.value))
      else
        InsertBooks(v, s'.(books := s'.books + [NewBook(row, res)]), rows, i + 1)
  }

  /** `populate_replace`: reset, intern the four dimensions in source order,
      then insert the books. The prior content of the store plays no part. */
  function PopulateReplace(v: Variant, prior: Store, rows: seq<Row>): Result<Store, ImportError> {
    InsertBooks(v, InternDimensions(v, CreateSchema(prior, true), rows), rows, 0)
  }

  /** The first loop of `populate_replace`: the four dimensions in source order. */
  function InternDimensions(v: Variant, s: Store, rows: seq<Row>): Store {
    var s1 := InternColumn(v, s, rows, Brand);
    var s2 := InternColumn(v, s1, rows, MachineType);
    var s3 := InternColumn(v, s2, rows, Model);
    InternColumn(v, s3, rows, Language)
  }

  /** The rebuild action of either front end: clean the sheet's rows, then replace the store. */
  function Import(v: Variant, prior: Store, raws: seq<RawRow>): Result<Store, ImportError> {
    PopulateReplace(v, prior, LoadExcel(raws))
  }

  // ---------------------------------------------------------------------
  // What a successful import establishes

  /** A row can be inserted at all: catalog number and title are present. */
  predicate WellFormed(row: Row) {
    row.bookId.Some? && row.title.Some?
  }

  /** No two rows share a catalog number. */
  predicate DistinctBookIds(rows: seq<Row>) {
    forall j, k :: 0 <= j < k < |rows| ==> rows[j].bookId != rows[k].bookId
  }

  /** The batch satisfies the books table's constraints. */
  predicate Importable(rows: seq<Row>) {
    (forall k :: 0 <= k < |rows| ==> WellFormed(rows[k])) && DistinctBookIds(rows)
  }

  /** A foreign key `fk` refers to the row of table `t` named `value`, and is
      null exactly when `get_id` rejects the value. */
  predicate References(v: Variant, t: seq<string>, value: Option<string>, fk: Option<nat>) {
    if Internable(v, value) then fk.Some? && 1 <= fk.value <= |t| && t[fk.value - 1] == value.value
    else fk == None
  }

  /** Book `b` records source row `row` against the dimension tables of `s`. */
  predicate Records(v: Variant, s: Store, row: Row, b: Book) {
    && row.bookId == Some(b.bookId)
    && row.title == Some(b.title)
    && b.editionYear == row.editionYear
    && b.location == row.location
    && forall d :: References(v, s.Table(d), DimValue(row, d), Fk(b, d))
  }

  /** The store holds exactly this batch: each dimension table lists the
      column's distinct internable values in ascending order (so ids follow
      name order), and book `k` records row `k`. */
  ghost predicate Populated(v: Variant, rows: seq<Row>, s: Store) {
    && (forall d :: s.Table(d) == InternableNames(v, SortedDistinct(Column(rows, d))))
    && |s.books| == |rows|
    && (forall k :: 0 <= k < |rows| ==> Records(v, s, rows[k], s.books[k]))
  }

  /** `get_id` on a value already in its table changes nothing and returns a key that references it. */
  lemma GetIdReferences(v: Variant, t: seq<string>, value: Option<string>)
    requires Internable(v, value) ==> value.value in t
    ensures GetId(v, t, value).table == t
    ensures References(v, t, value, GetId(v, t, value).id)
  {
  }

  /** When every value of the row is already in its table, `ResolveRow`
      adds no dimension row, and the ids it hands out refer to the rows named
      by the row's values and are null exactly for the values `get_id` rejects. */
  lemma ResolveRowReferences(v: Variant, s: Store, row: Row)
    requires Covered(v, s, row)
    ensures var r := ResolveRow(v, s, row);
      && r.store == s
      && References(v, s.brands, row.brand, r.brandId)
      && References(v, s.machineTypes, row.machineType, r.machineTypeId)
      && References(v, s.models, row.model, r.modelId)
      && References(v, s.languages, Some(row.language), r.languageId)
  {
    assert DimValue(row, Brand) == row.brand && s.Table(Brand) == s.brands;
    GetIdReferences(v, s.brands, row.brand);
    assert DimValue(row, MachineType) == row.machineType && s.Table(MachineType) == s.machineTypes;
    GetIdReferences(v, s.machineTypes, row.machineType);
    assert DimValue(row, Model) == row.model && s.Table(Model) == s.models;
    GetIdReferences(v, s.models, row.model);
    assert DimValue(row, Language) == Some(row.language) && s.Table(Language) == s.languages;
    GetIdReferences(v, s.languages, Some(row.language));
  }

  /** The book the second loop inserts for a well-formed row, from the ids `ResolveRow` found. */
  function NewBook(row: Row, res: Resolved): Book
    requires WellFormed(row)
  {
    Book(row.bookId.value, row.title.value, row.editionYear, row.location,
         res.brandId, res.modelId, res.machineTypeId, res.languageId)
  }

  /** The book inserted for a well-formed, covered row records it. */
  lemma NewBookRecords(v: Variant, s: Store, row: Row)
    requires WellFormed(row) && Covered(v, s, row)
    ensures Records(v, s, row, NewBook(row, ResolveRow(v, s, row)))
  {
    var b := NewBook(row, ResolveRow(v, s, row));
    ResolveRowReferences(v, s, row);
    forall d ensures References(v, s.Table(d), DimValue(row, d), Fk(b, d)) {
      match d
      case Brand =>
      case MachineType =>
      case Model =>
      case Language =>
    }
  }

  /** Replacing the books leaves the dimension tables alone. */
  lemma TablesIgnoreBooks(s: Store, books: seq<Book>)
    ensures forall d :: s.(books := books).Table(d) == s.Table(d)
  {
    forall d ensures s.(books := books).Table(d) == s.Table(d) {
      match d
      case Brand =>
      case MachineType =>
      case Model =>
      case Language =>
    }
  }

  /** Whether a row is covered or a book records it depends on the dimension tables only. */
  lemma OnlyTablesMatter(v: Variant, s: Store, s': Store, row: Row, b: Book)
    requires forall d :: s'.Table(d) == s.Table(d)
    ensures Covered(v, s', row) <==> Covered(v, s, row)
    ensures Records(v, s', row, b) <==> Records(v, s, row, b)
  {
  }

  lemma BooksDoNotMatter(v: Variant, s: Store, books: seq<Book>, row: Row, b: Book)
    ensures Covered(v, s.(books := books), row) <==> Covered(v, s, row)
    ensures Records(v, s.(books := books), row, b) <==> Records(v, s, row, b)
  {
    TablesIgnoreBooks(s, books);
    OnlyTablesMatter(v, s, s.(books := books), row, b);
  }

  /** The hypotheses of the second loop before row `i`: every value is in
      its table, the first `i` rows are well formed, pairwise distinct, and
      recorded by the first `i` books. */
  predicate Inserted(v: Variant, s: Store, rows: seq<Row>, i: nat) {
    && i <= |rows|
    && (forall k :: 0 <= k < |rows| ==> Covered(v, s, rows[k]))
    && |s.books| == i
    && (forall k :: 0 <= k < i ==> WellFormed(rows[k]) && Records(v, s, rows[k], s.books[k]))
    && (forall j, k :: 0 <= j < k < i ==> rows[j].bookId != rows[k].bookId)
  }

  /** What the second loop delivers, measured against the tables of `s`:
      success exactly for an importable batch, and then the tables are those
      of `s` and book `k` records row `k`. */
  predicate Delivers(v: Variant, s: Store, rows: seq<Row>, r: Result<Store, ImportError>) {
    && (r.Success? <==> Importable(rows))
    && (r.Success? ==>
          && (forall d :: r.value.Table(d) == s.Table(d))
          && |r.value.books| == |rows|
          && forall k :: 0 <= k < |rows| ==> Records(v, s, rows[k], r.value.books[k]))
  }

  /** One successful step of the second loop keeps the loop's hypotheses. */
  lemma InsertStep(v: Variant, s: Store, rows: seq<Row>, i: nat)
    requires Inserted(v, s, rows, i) && i < |rows| && WellFormed(rows[i])
    requires !HasBookId(s.books, rows[i].bookId.value)
    ensures Inserted(v, s.(books := s.books + [NewBook(rows[i], ResolveRow(v, s, rows[i]))]), rows, i + 1)
  {
    var row := rows[i];
    var book := NewBook(row, ResolveRow(v, s, row));
    NewBookRecords(v, s, row);
    var books := s.books + [book];
    var s2 := s.(books := books);
    forall k | 0 <= k < |rows| ensures Covered(v, s2, rows[k]) {
      BooksDoNotMatter(v, s, books, rows[k], book);
    }
    forall k | 0 <= k < i + 1 ensures WellFormed(rows[k]) && Records(v, s2, rows[k], s2.books[k]) {
      BooksDoNotMatter(v, s, books, rows[k], books[k]);
      if k < i {
        assert books[k] == s.books[k];
      }
    }
    forall j | 0 <= j < i ensures rows[j].bookId != rows[i].bookId {
      assert s.books[j].bookId != row.bookId.value;
    }
  }

  /** What the second loop delivers does not depend on the books of the store it is measured against. */
  lemma DeliversIgnoresBooks(v: Variant, s: Store, books: seq<Book>, rows: seq<Row>,
                                                r: Result<Store, ImportError>)
    requires Delivers(v, s.(books := books), rows, r)
    ensures Delivers(v, s, rows, r)
  {
    TablesIgnoreBooks(s, books);
    if r.Success? {
      forall k | 0 <= k < |rows| ensures Records(v, s, rows[k], r.value.books[k]) {
        BooksDoNotMatter(v, s, books, rows[k], r.value.books[k]);
      }
    }
  }

  /** The second loop stops at a row without catalog number or title. */
  lemma InsertBooksMalformed(v: Variant, s: Store, rows: seq<Row>, i: nat)
    requires Inserted(v, s, rows, i) && i < |rows| && !WellFormed(rows[i])
    ensures Delivers(v, s, rows, InsertBooks(v, s, rows, i))
  {
    assert InsertBooks(v, s, rows, i).Failure?;
    assert !Importable(rows);
  }

  /** The second loop stops at a row whose catalog number an earlier book has. */
  lemma InsertBooksDuplicate(v: Variant, s: Store, rows: seq<Row>, i: nat)
    requires Inserted(v, s, rows, i) && i < |rows| && WellFormed(rows[i])
    requires HasBookId(s.books, rows[i].bookId.value)
    ensures Delivers(v, s, rows, InsertBooks(v, s, rows, i))
  {
    ResolveRowReferences(v, s, rows[i]);
    var k :| 0 <= k < |s.books| && s.books[k].bookId == rows[i].bookId.value;
    assert rows[k].bookId == rows[i].bookId;
    assert InsertBooks(v, s, rows, i).Failure?;
  }

  /** The second loop, from row `i` on, given that the first `i` books are
      in place: it succeeds exactly when the whole batch is importable, and
      then it adds no dimension row and inserts one book per remaining row. */
  lemma {:induction false} InsertBooksSpec(v: Variant, s: Store, rows: seq<Row>, i: nat)
    requires Inserted(v, s, rows, i)
    ensures Delivers(v, s, rows, InsertBooks(v, s, rows, i))
    decreases |rows| - i
  {
    if i == |rows| {
      assert Importable(rows);
    } else if !WellFormed(rows[i]) {
      InsertBooksMalformed(v, s, rows, i);
    } else if HasBookId(s.books, rows[i].bookId.value) {
      InsertBooksDuplicate(v, s, rows, i);
    } else {
      var row := rows[i];
      ResolveRowReferences(v, s, row);
      var books := s.books + [NewBook(row, ResolveRow(v, s, row))];
      assert InsertBooks(v, s, rows, i) == InsertBooks(v, s.(books := books), rows, i + 1);
      InsertStep(v, s, rows, i);
      InsertBooksSpec(v, s.(books := books), rows, i + 1);
      DeliversIgnoresBooks(v, s, books, rows, InsertBooks(v, s, rows, i));
    }
  }

  /** Interning one column's sorted distinct values into an empty table
      leaves exactly its internable values, in ascending order. */
  lemma InternColumnFresh(v: Variant, s: Store, rows: seq<Row>, d: Dim)
    requires s.Table(d) == []
    ensures InternColumn(v, s, rows, d).Table(d) == InternableNames(v, SortedDistinct(Column(rows, d)))
  {
    var names := SortedDistinct(Column(rows, d));
    StrictlySortedIsUnique(names);
    InternAllFresh(v, [], names);
    assert [] + InternableNames(v, names) == InternableNames(v, names);
  }

  /** After the reset and the first loop every dimension table holds the
      column's distinct internable values in ascending order, no book exists
      yet, and every value the second loop will look up is already there. */
  lemma {:induction false} InternDimensionsSpec(v: Variant, rows: seq<Row>)
    ensures var s := InternDimensions(v, EmptyStore, rows);
      && s.books == []
      && (forall d :: s.Table(d) == InternableNames(v, SortedDistinct(Column(rows, d))))
      && (forall k :: 0 <= k < |rows| ==> Covered(v, s, rows[k]))
  {
    var s1 := InternColumn(v, EmptyStore, rows, Brand);
    InternColumnFresh(v, EmptyStore, rows, Brand);
    var s2 := InternColumn(v, s1, rows, MachineType);
    InternColumnFresh(v, s1, rows, MachineType);
    var s3 := InternColumn(v, s2, rows, Model);
    InternColumnFresh(v, s2, rows, Model);
    var s4 := InternColumn(v, s3, rows, Language);
    InternColumnFresh(v, s3, rows, Language);
    assert forall d :: s4.Table(d) == InternableNames(v, SortedDistinct(Column(rows, d))) by {
      forall d ensures s4.Table(d) == InternableNames(v, SortedDistinct(Column(rows, d))) {
        match d
        case Brand =>
        case MachineType =>
        case Model =>
        case Language =>
      }
    }
    forall k, d | 0 <= k < |rows| && Internable(v, DimValue(rows[k], d))
      ensures DimValue(rows[k], d).value in s4.Table(d)
    {
      assert DimValue(rows[k], d).value in Column(rows, d);
    }
  }

  /** `populate_replace` succeeds exactly when every row has a catalog number
      and a title and no two rows share a catalog number; it then holds this
      batch and nothing else, whatever the store held before. */
  lemma PopulateReplaceCorrect(v: Variant, prior: Store, rows: seq<Row>)
    ensures var r := PopulateReplace(v, prior, rows);
      && (r.Success? <==> Importable(rows))
      && (r.Success? ==> Populated(v, rows, r.value))
      && r == PopulateReplace(v, EmptyStore, rows)
  {
    var s := InternDimensions(v, EmptyStore, rows);
    InternDimensionsSpec(v, rows);
    assert PopulateReplace(v, prior, rows) == InsertBooks(v, s, rows, 0);
    assert Inserted(v, s, rows, 0);
    InsertBooksSpec(v, s, rows, 0);
    var r := InsertBooks(v, s, rows, 0);
    if r.Success? {
      forall k | 0 <= k < |rows| ensures Records(v, r.value, rows[k], r.value.books[k]) {
        OnlyTablesMatter(v, s, r.value, rows[k], r.value.books[k]);
      }
    }
  }

  /** Two rows with one catalog number make the import fail. */
  lemma DuplicateBookIdFails(v: Variant, prior: Store, rows: seq<Row>, j: nat, k: nat)
    requires j < k < |rows| && rows[j].bookId == rows[k].bookId
    ensures PopulateReplace(v, prior, rows).Failure?
  {
    PopulateReplaceCorrect(v, prior, rows);
  }

  /** What a populated store guarantees to readers: dimension names are unique
      and ascending (ids follow name order), a table holds exactly the
      internable values of its column, catalog numbers are unique, and every
      non-null foreign key names an existing dimension row. */
  lemma PopulatedInvariants(v: Variant, rows: seq<Row>, s: Store)
    requires Importable(rows) && Populated(v, rows, s)
    ensures forall d :: StrictlySorted(s.Table(d)) && Unique(s.Table(d))
    ensures forall d, n :: n in s.Table(d) <==>
      Internable(v, Some(n)) && exists k :: 0 <= k < |rows| && DimValue(rows[k], d) == Some(n)
    ensures forall j, k :: 0 <= j < k < |s.books| ==> s.books[j].bookId != s.books[k].bookId
    ensures forall k, d :: 0 <= k < |s.books| && Fk(s.books[k], d).Some? ==>
      1 <= Fk(s.books[k], d).value <= |s.Table(d)|
  {
    forall d ensures StrictlySorted(s.Table(d)) && Unique(s.Table(d)) {
      InternableNamesSorted(v, SortedDistinct(Column(rows, d)));
      StrictlySortedIsUnique(s.Table(d));
    }
    forall k, d | 0 <= k < |s.books| && Fk(s.books[k], d).Some?
      ensures 1 <= Fk(s.books[k], d).value <= |s.Table(d)|
    {
      assert References(v, s.Table(d), DimValue(rows[k], d), Fk(s.books[k], d));
    }
    forall j, k | 0 <= j < k < |s.books| ensures s.books[j].bookId != s.books[k].bookId {
      assert Records(v, s, rows[j], s.books[j]) && Records(v, s, rows[k], s.books[k]);
    }
  }

  /** Importing the same sheet again gives the same store: ids regenerate
      identically and no dimension value is duplicated. */
  lemma ReimportIdempotent(v: Variant, prior: Store, raws: seq<RawRow>)
    requires Import(v, prior, raws).Success?
    ensures Import(v, Import(v, prior, raws).value, raws) == Import(v, prior, raws)
  {
    PopulateReplaceCorrect(v, prior, LoadExcel(raws));
    PopulateReplaceCorrect(v, Import(v, prior, raws).value, LoadExcel(raws));
  }
}
