/** The pipeline end to end: spreadsheet rows are cleaned, the store is
    rebuilt from them, the read view is produced, and the filter panel works
    on that view. */
module Catalog {
  import opened Wrappers
  import opened Text
  import opened StringOrder
  import opened Cleaning
  import opened Store
  import opened Ingest
  import opened View
  import opened Filter

  /** How a cleaned value shows in the view: as itself when `get_id` interns
      it, as NULL otherwise. */
  function Visible(v: Variant, value: Option<string>): Option<string> {
    if Internable(v, value) then value else None
  }

  /** The view row a well-formed source row should produce. */
  function ExpectedRow(v: Variant, row: Row): ViewRow
    requires WellFormed(row)
  {
    ViewRow(row.bookId.value, row.title.value,
            Visible(v, row.brand), Visible(v, row.model), Visible(v, row.machineType),
            Visible(v, Some(row.language)), row.editionYear, row.location)
  }

  function ExpectedView(v: Variant, rows: seq<Row>): (r: seq<ViewRow>)
    requires forall k :: 0 <= k < |rows| ==> WellFormed(rows[k])
    ensures |r| == |rows|
  {
    seq(|rows|, k requires 0 <= k < |rows| => ExpectedRow(v, rows[k]))
  }

  /** A book recorded against a store joins back to the row's expected view row. */
  lemma JoinRecorded(v: Variant, s: Store, row: Row, b: Book)
    requires Records(v, s, row, b)
    ensures Join(s, b) == ExpectedRow(v, row)
  {
    var j := Join(s, b);
    forall d ensures Name(j, d) == Visible(v, DimValue(row, d)) {
      assert References(v, s.Table(d), DimValue(row, d), Fk(b, d));
    }
    assert Name(j, Brand) == j.brand && Name(j, MachineType) == j.machineType;
    assert Name(j, Model) == j.model && Name(j, Language) == j.language;
  }

  /** Import then read back: an importable batch of N rows yields exactly N
      view rows, each carrying the cleaned catalog number, title, edition and
      location of its source row and the names of its internable dimension
      values, ordered by catalog number. */
  lemma ImportRoundTrip(v: Variant, prior: Store, rows: seq<Row>)
    requires Importable(rows)
    ensures PopulateReplace(v, prior, rows).Success?
    ensures ReadAll(PopulateReplace(v, prior, rows).value) == SortByBookId(ExpectedView(v, rows))
    ensures forall i, j :: 0 <= i < j < |rows| ==>
      ReadAll(PopulateReplace(v, prior, rows).value)[i].bookId < ReadAll(PopulateReplace(v, prior, rows).value)[j].bookId
  {
    PopulateReplaceCorrect(v, prior, rows);
    var s := PopulateReplace(v, prior, rows).value;
    forall k | 0 <= k < |rows| ensures JoinAll(s)[k] == ExpectedView(v, rows)[k] {
      JoinRecorded(v, s, rows[k], s.books[k]);
    }
    assert JoinAll(s) == ExpectedView(v, rows);
    PopulatedInvariants(v, rows, s);
    ReadAllStrictlyAscending(s);
  }

  /** A name in column `d` of the view is a name of dimension table `d`. */
  lemma ViewNameInTable(s: Store, d: Dim, n: string)
    ensures (exists i :: 0 <= i < |ReadAll(s)| && Name(ReadAll(s)[i], d) == Some(n)) ==> n in s.Table(d)
  {
    var view := ReadAll(s);
    if exists i :: 0 <= i < |view| && Name(view[i], d) == Some(n) {
      var i :| 0 <= i < |view| && Name(view[i], d) == Some(n);
      ReadAllRowsAreJoins(s, view[i]);
      var k :| 0 <= k < |s.books| && view[i] == Join(s, s.books[k]);
      assert Lookup(s.Table(d), Fk(s.books[k], d)) == Some(n);
    }
  }

  /** A name of a populated dimension table comes from some row `k`, and `get_id` interns it. */
  lemma TableNameSource(v: Variant, rows: seq<Row>, s: Store, d: Dim, n: string) returns (k: nat)
    requires Populated(v, rows, s) && n in s.Table(d)
    ensures k < |rows| && |s.books| == |rows| && DimValue(rows[k], d) == Some(n) && Internable(v, Some(n))
  {
    assert n in InternableNames(v, SortedDistinct(Column(rows, d)));
    assert n in Column(rows, d);
    k :| 0 <= k < |rows| && DimValue(rows[k], d) == Some(n);
  }

  /** Every name of a populated dimension table shows in the view. */
  lemma TableNameInView(v: Variant, rows: seq<Row>, s: Store, d: Dim, n: string)
    requires Populated(v, rows, s)
    ensures n in s.Table(d) ==> exists i :: 0 <= i < |ReadAll(s)| && Name(ReadAll(s)[i], d) == Some(n)
  {
    if n in s.Table(d) {
      var k := TableNameSource(v, rows, s, d, n);
      assert Records(v, s, rows[k], s.books[k]);
      assert References(v, s.Table(d), DimValue(rows[k], d), Fk(s.books[k], d));
      var x := JoinAll(s)[k];
      assert Name(x, d) == Some(n);
      assert x in multiset(JoinAll(s));
      var view := ReadAll(s);
      assert x in multiset(view);
      var i :| 0 <= i < |view| && view[i] == x;
    }
  }

  /** In a populated store, a name shows in the view's column `d` exactly
      when it is in dimension table `d`. */
  lemma ViewNamesAreTableNames(v: Variant, rows: seq<Row>, s: Store, d: Dim, n: string)
    requires Populated(v, rows, s)
    ensures (exists i :: 0 <= i < |ReadAll(s)| && Name(ReadAll(s)[i], d) == Some(n)) <==> n in s.Table(d)
  {
    ViewNameInTable(s, d, n);
    TableNameInView(v, rows, s, d, n);
  }

  /** After an import each option list is "all" followed by that dimension
      table's names in id order: the table was filled in ascending order and
      holds exactly the names the view shows. */
  lemma OptionsAfterImport(v: Variant, prior: Store, rows: seq<Row>, d: Dim)
    requires Importable(rows)
    ensures PopulateReplace(v, prior, rows).Success?
    ensures var s := PopulateReplace(v, prior, rows).value;
      Options(ReadAll(s), d) == [All] + s.Table(d)
  {
    PopulateReplaceCorrect(v, prior, rows);
    var s := PopulateReplace(v, prior, rows).value;
    PopulatedInvariants(v, rows, s);
    var opts := Options(ReadAll(s), d);
    forall n ensures n in opts[1..] <==> n in s.Table(d) {
      ViewNamesAreTableNames(v, rows, s, d, n);
    }
    StrictlySortedUnique(opts[1..], s.Table(d));
    assert opts == [All] + opts[1..];
  }

  /** A whitespace-only language cell is not "nan", so it does not become
      "Unknown": it cleans to the empty string, which the desktop then stores
      as a NULL language and the web app as a language named "". */
  lemma BlankLanguageCell(raw: RawRow)
    requires raw.language.Text? && AllSpace(raw.language.s)
    requires raw.bookId.Some? && raw.title.Text? && CleanCell(raw.title).Some?
    ensures CleanRow(raw).language == ""
    ensures ExpectedRow(Desktop, CleanRow(raw)).language == None
    ensures ExpectedRow(Web, CleanRow(raw)).language == Some("")
  {
  }

  /** A missing language (an empty cell, or "nan" with any whitespace around
      it) is stored and shown as "Unknown" by both front ends. */
  lemma MissingLanguageIsUnknown(v: Variant, raw: RawRow, p: string, q: string)
    requires raw.language == Blank || (raw.language == Text(p + NaN + q) && AllSpace(p) && AllSpace(q))
    requires raw.bookId.Some? && raw.title.Text? && CleanCell(raw.title).Some?
    ensures CleanRow(raw).language == UnknownLanguage
    ensures ExpectedRow(v, CleanRow(raw)).language == Some(UnknownLanguage)
  {
    if raw.language == Blank {
      BlankStripsToNaN();
    } else {
      CleanCellPadded(p, NaN, q);
    }
    assert CleanCell(raw.language) == None;
    var row := CleanRow(raw);
    assert row.language == UnknownLanguage;
    assert Internable(v, Some(row.language));
  }
}
