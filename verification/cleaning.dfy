/** Spreadsheet cell cleaning done by `load_excel_to_df` in both front ends:
    every text column is stringified, stripped, the literal "nan" is read as
    a missing value, and a missing language becomes "Unknown". */
module Cleaning {
  import opened Wrappers
  import opened Text

  /** One raw spreadsheet cell of a text column, after the column mapping.
      `Blank` is any cell `read_excel` yields as a floating NaN: an empty
      cell, or one of the text markers pandas reads as missing ("NA",
      "N/A", "NULL", ...). `Text(s)` holds the cell's value as `str()`
      renders it under the column's type. */
  datatype Cell = Blank | Text(s: string)

  /** One spreadsheet row with its columns already mapped to the canonical
      field names. `bookId` is the numeric catalog number, `None` when the
      cell is empty; edition and location are already stringified or missing. */
  datatype RawRow = RawRow(
    bookId: Option<int>,
    brand: Cell,
    model: Cell,
    machineType: Cell,
    title: Cell,
    language: Cell,
    editionYear: Option<string>,
    location: Option<string>)

  /** A cleaned row: each text column is a trimmed string or missing, and the
      language is always present. */
  datatype Row = Row(
    bookId: Option<int>,
    brand: Option<string>,
    model: Option<string>,
    machineType: Option<string>,
    title: Option<string>,
    language: string,
    editionYear: Option<string>,
    location: Option<string>)

  /** The literal a NaN cell turns into under `astype(str)`. */
  const NaN: string := "nan"

  /** The language a row gets when its language cell is missing. */
  const UnknownLanguage: string := "Unknown"

  /** `astype(str)` on one cell. */
  function CellText(c: Cell): string {
    match c
    case Blank => NaN
    case Text(s) => s
  }

  /** A blank cell reads as "nan" and stripping keeps it. */
  lemma BlankStripsToNaN()
    ensures Strip(CellText(Blank)) == NaN
  {
    StripTrimmed(NaN);
  }

  /** Strip, then read "nan" as missing. The result, when present, has no
      surrounding whitespace and is not "nan". A whitespace-only cell is NOT
      missing: it cleans to the empty string. */
  function CleanCell(c: Cell): (r: Option<string>)
    ensures c.Blank? ==> r == None
    ensures r.Some? ==> Trimmed(r.value) && r.value != NaN
    ensures c.Text? && AllSpace(c.s) ==> r == Some("")
  {
    var t := Strip(CellText(c));
    assert c.Blank? ==> t == NaN by {
      if c.Blank? { BlankStripsToNaN(); }
    }
    assert c.Text? && AllSpace(c.s) ==> t == "" by {
      if c.Text? { StripEmptyIff(c.s); }
    }
    if t == NaN then None else Some(t)
  }

  /** The language column: a missing value becomes "Unknown". */
  function CleanLanguage(c: Cell): (r: string)
    ensures CleanCell(c) == None ==> r == UnknownLanguage
    ensures CleanCell(c) != None ==> Some(r) == CleanCell(c)
  {
    match CleanCell(c)
    case None => UnknownLanguage
    case Some(t) => t
  }

  /** Cleaning one row: the five text columns are cleaned, the catalog number,
      edition and location pass through unchanged. */
  function CleanRow(raw: RawRow): (r: Row)
    ensures r.bookId == raw.bookId
    ensures r.brand == CleanCell(raw.brand) && r.model == CleanCell(raw.model)
    ensures r.machineType == CleanCell(raw.machineType) && r.title == CleanCell(raw.title)
    ensures r.language == CleanLanguage(raw.language)
    ensures r.editionYear == raw.editionYear && r.location == raw.location
  {
    Row(raw.bookId, CleanCell(raw.brand), CleanCell(raw.model), CleanCell(raw.machineType),
        CleanCell(raw.title), CleanLanguage(raw.language), raw.editionYear, raw.location)
  }

  /** `load_excel_to_df` after the sheet is read: one cleaned row per raw row, in order. */
  function LoadExcel(raws: seq<RawRow>): (rows: seq<Row>)
    ensures |rows| == |raws|
    ensures forall i :: 0 <= i < |raws| ==> rows[i] == CleanRow(raws[i])
  {
    seq(|raws|, i requires 0 <= i < |raws| => CleanRow(raws[i]))
  }

  /** Cleaning is idempotent: a cleaned value read back as a cell cleans to itself. */
  lemma CleanCellIdempotent(c: Cell)
    ensures CleanCell(c).Some? ==> CleanCell(Text(CleanCell(c).value)) == CleanCell(c)
  {
    if CleanCell(c).Some? {
      StripIdempotent(CellText(c));
    }
  }

  /** Cleaning keeps exactly the text between the surrounding whitespace,
      and reads it as missing exactly when that text is "nan". Since every
      string splits into leading whitespace, a trimmed core and trailing
      whitespace, this describes `CleanCell` on every text cell. */
  lemma CleanCellPadded(p: string, t: string, q: string)
    requires AllSpace(p) && AllSpace(q) && Trimmed(t)
    ensures CleanCell(Text(p + t + q)) == if t == NaN then None else Some(t)
  {
    StripPadded(p, t, q);
  }
}
