# Technical book archive: ingest, store and filter

The archive keeps the catalog of technical books of a marine services
company. A spreadsheet is cleaned and loaded into a small SQLite database
with four dimension tables (brands, machine types, models, languages) and
a books table. The database is read back as one denormalized view, which
the user narrows with four combo boxes and a title search. The same
pipeline exists twice, almost line for line: in the PySide6 desktop app
(`kaveh_books1.py`) and in the Streamlit web app (`app_one_tab_pro.py`).
This project models that pipeline once, as pure functions over immutable
data. `Variant = Desktop | Web` selects the two places where the copies
behave differently:

- `get_id` on the empty name. An empty brand, model or machine-type cell
  is read as NaN and cleaned to a missing value in both front ends, so it
  gives a NULL foreign key in both; an empty language cell becomes
  "Unknown". A whitespace-only cell, however, cleans to "". The desktop
  rejects every falsy name, so "" becomes a NULL foreign key there; the
  web app interns "" as an ordinary dimension value.
- The search text and the combo entries. The desktop strips the search
  text and treats an empty combo entry like "all". The web app does
  neither.

Files and modules:

- `wrappers.dfy`: module `Wrappers`, with `Option` and `Result`.
- `text.dfy`: module `Text`. It models Python's `str.strip` with the
  exact `str.isspace` character set, ASCII lower-casing, and literal
  substring search.
- `order.dfy`: module `StringOrder`. It models Python's string order
  (code point by code point) and `sorted(set(...))`.
- `cleaning.dfy`: module `Cleaning`, which models `load_excel_to_df` on
  sheet cells whose columns are already mapped.
- `store.dfy`: module `Store`, covering the tables, `create_schema` and
  `get_id`. A dimension table is the sequence of its names in insertion
  order, and a name's id is its position plus one.
- `ingest.dfy`: module `Ingest`, which models `populate_replace`. A
  constraint violation is an `ImportError`.
- `view.dfy`: module `View`, which models `load_db_to_df`: a left join,
  then `ORDER BY book_id`.
- `filter.dfy`: module `Filter`, covering the option lists, the filter
  evaluation and `clear_filters`.
- `catalog.dfy`: module `Catalog`, which connects the pipeline end to end.

Two consequences of the code are easy to miss:

- A whitespace-only cell is not missing. `astype(str).str.strip()` turns
  it into "", and "" is not "nan", so the cell stays as "". A
  whitespace-only language cell therefore does not become "Unknown". It
  is "", which the desktop stores as a NULL language and the web app as a
  language named "" (`Catalog.BlankLanguageCell`).
- A dimension value equal to the "(همه)" entry is still stored and
  offered. It cannot be selected on its own, because selecting it means
  "no constraint" (`Filter.NameEqualToAllCannotBePicked`).

## Model

| member | source | states |
|---|---|---|
| Text.Strip | kaveh_books1.py:146 | the stripped text has no whitespace at either end and is no longer than the input |
| Text.StripIsInfix | kaveh_books1.py:146 | the stripped text is an infix of the input with only whitespace before and after it |
| Text.StripPadded | kaveh_books1.py:146 | any whitespace around a trimmed text strips back to exactly that text |
| Text.StripIdempotent | app_one_tab_pro.py:203 | stripping twice is the same as stripping once |
| Text.StripEmptyIff | kaveh_books1.py:492 | the stripped text is empty exactly when the input is all whitespace |
| StringOrder.SortedDistinct | kaveh_books1.py:158 | `sorted(unique(...))`: the result is strictly ascending and holds exactly the input's values |
| StringOrder.StrictlySortedUnique | kaveh_books1.py:158 | two strictly ascending lists with the same members are equal, so the sorted distinct list is unique |
| Cleaning.CleanCell | kaveh_books1.py:145-147 | a blank cell becomes missing; a kept value is trimmed and never "nan"; a whitespace-only cell becomes "" and not missing |
| Cleaning.CleanCellPadded | kaveh_books1.py:145-147 | a text cell cleans to its trimmed core, and to missing exactly when that core is "nan" |
| Cleaning.CleanCellIdempotent | app_one_tab_pro.py:202-204 | a cleaned value read back as a cell cleans to itself |
| Store.CreateSchema | kaveh_books1.py:118-130 | with drop, every table is empty afterwards; without it, an existing store is left as it is |
| Store.GetId | kaveh_books1.py:133-139 | a name `get_id` rejects (missing; on the desktop also "") gives no id and leaves the table alone; otherwise the name is added once if absent, and the id is that of the row holding it; names stay unique |
| Store.GetIdIdempotent | kaveh_books1.py:136-139 | after `get_id` the name is held by exactly the returned row, and a second call returns the same id and adds no row |
| Store.GetIdExisting | app_one_tab_pro.py:225-228 | a name already in the table gets the id of its existing row and adds nothing |
| Store.EmptyNameVariants | app_one_tab_pro.py:223 | the desktop returns no id for "" and adds nothing; the web app interns "" and returns its id |
| Store.InternableNames | kaveh_books1.py:134 | keeps exactly the names `get_id` accepts |
| Store.InternAll | kaveh_books1.py:158-159 | repeated `get_id` keeps names unique and never changes rows that already exist |
| Store.InternAllFresh | kaveh_books1.py:158-159 | interning distinct new names appends exactly the accepted ones, in the order given |
| Store.InternableNamesSorted | kaveh_books1.py:158 | dropping rejected names keeps a strictly ascending list strictly ascending |
| Ingest.Column | kaveh_books1.py:158 | `dropna()` of one column keeps exactly the present values of that column |
| Ingest.ResolveRowReferences | kaveh_books1.py:163-166 | when every value is already in its table, the per-row `get_id` calls add no row, and each id refers to the row named by the value or is NULL exactly when `get_id` rejects it |
| Ingest.NewBookRecords | kaveh_books1.py:167-175 | the inserted book carries the row's catalog number, title, edition and location, and keys referring to its values |
| Ingest.InsertStep | kaveh_books1.py:162-175 | one successful insert keeps all loop invariants: values covered, prefix recorded, catalog numbers distinct |
| Ingest.InsertBooksMalformed | kaveh_books1.py:167-175 | a row without catalog number or title makes the insert loop fail |
| Ingest.InsertBooksDuplicate | kaveh_books1.py:66 | a row whose catalog number is already stored makes the insert loop fail |
| Ingest.InsertBooksSpec | kaveh_books1.py:162-176 | the insert loop succeeds exactly for an importable batch, then adds no dimension row and records row k as book k |
| Ingest.InternColumnFresh | kaveh_books1.py:156-159 | interning one column into an empty table leaves exactly its accepted distinct values, ascending |
| Ingest.InternDimensionsSpec | app_one_tab_pro.py:231-236 | after the first loop, each table holds its column's accepted distinct values in ascending order, there is no book, and every value a row will look up is present |
| Ingest.PopulateReplaceCorrect | kaveh_books1.py:152-176 | the rebuild succeeds exactly when every row has catalog number and title and no two share a catalog number; the store then holds this batch only, whatever it held before |
| Ingest.DuplicateBookIdFails | app_one_tab_pro.py:182 | two rows with one catalog number make the rebuild fail |
| Ingest.PopulatedInvariants | app_one_tab_pro.py:230-250 | a rebuilt store has unique ascending names per table, a table name exactly when some row has that accepted value, unique catalog numbers, and every non-null key in range |
| Ingest.ReimportIdempotent | kaveh_books1.py:513-515 | importing the same sheet again gives the same store, with the same ids |
| View.InsertByBookId | kaveh_books1.py:195 | inserting into an ascending list keeps it ascending and adds exactly that row |
| View.SortByBookId | kaveh_books1.py:195 | the sorted view is ascending by catalog number and a permutation of its input |
| View.ReadAll | kaveh_books1.py:179-198 | one view row per book, ascending by catalog number, and exactly the joined books |
| View.ReadAllRowsAreJoins | app_one_tab_pro.py:252-271 | every view row is the join of a stored book |
| View.JoinNullIffKeyNull | kaveh_books1.py:191-194 | when keys are in range, a name is NULL exactly when its key is NULL |
| View.ReadAllStrictlyAscending | app_one_tab_pro.py:268 | with unique catalog numbers the view is strictly ascending |
| Filter.Values | kaveh_books1.py:467 | `dropna()` of a view column keeps exactly the present names |
| Filter.Options | app_one_tab_pro.py:315-321 | an option list is "(همه)" followed by a strictly ascending list of exactly the names present in the full view |
| Filter.DesktopOptionsAgree | kaveh_books1.py:464-476 | the desktop's empty-view branch offers the same list as the general rule |
| Filter.Where | kaveh_books1.py:495 | a selection step keeps exactly the input rows that pass, and never more rows |
| Filter.WhereIsSubsequence | app_one_tab_pro.py:326 | a selection step keeps the input order |
| Filter.FilterConcat | kaveh_books1.py:495-499 | filtering a concatenation is the concatenation of the filtered parts |
| Filter.FilterSingleton | kaveh_books1.py:495-499 | on one row, the chain of narrowing steps keeps the row exactly when it matches every constraining entry and the search |
| Filter.FilterIsConjunction | kaveh_books1.py:488-501 | the sequential narrowing equals one selection by the conjunction of all constraints |
| Filter.FilterCorrect | kaveh_books1.py:488-501 | a row is shown exactly when it is an input row that matches; shown rows keep input order; the count is the number shown |
| Filter.ClearFiltersShowsAll | kaveh_books1.py:482-486 | after clearing, the whole view is shown and the count is its length |
| Filter.FilterIdempotent | app_one_tab_pro.py:325-330 | filtering the shown rows again with the same selection changes nothing |
| Filter.SubsequenceKeepsOrder | app_one_tab_pro.py:325-330 | a subsequence of an ascending list is ascending and holds only its rows |
| Filter.FilterKeepsSorting | kaveh_books1.py:494-499 | filtering the view keeps it ascending by catalog number |
| Filter.DesktopBlankSelectionShowsAll | kaveh_books1.py:490-495 | on the desktop, empty combo entries and a whitespace-only search show the whole view |
| Filter.BlankQueryVariants | app_one_tab_pro.py:330 | a single-space search keeps a row on the desktop and removes a title without a space on the web |
| Filter.MatchesOnly | app_one_tab_pro.py:326-329 | under a one-dimension selection a row matches exactly when it carries the chosen name |
| Filter.PickOption | app_one_tab_pro.py:315-329 | picking an offered name shows exactly the rows with that name, and at least one |
| Filter.NameEqualToAllCannotBePicked | kaveh_books1.py:466-468 | a stored name equal to "(همه)" is offered, yet choosing it shows everything |
| Catalog.JoinRecorded | kaveh_books1.py:179-198 | a book recorded for a row joins back to that row's expected view row |
| Catalog.ImportRoundTrip | kaveh_books1.py:513-517 | import then read gives the expected rows sorted by catalog number, strictly ascending |
| Catalog.ViewNamesAreTableNames | kaveh_books1.py:179-198 | after a rebuild, a name shows in a view column exactly when it is in that dimension table |
| Catalog.OptionsAfterImport | kaveh_books1.py:517-519 | after a rebuild each option list is "(همه)" followed by the dimension table in id order |
| Catalog.BlankLanguageCell | kaveh_books1.py:146-148 | a whitespace-only language cell becomes "", not "Unknown"; the desktop shows NULL, the web app shows "" |
| Catalog.MissingLanguageIsUnknown | app_one_tab_pro.py:203-205 | an empty language cell, or "nan" with whitespace around it, is stored and shown as "Unknown" in both front ends |

## Left out

- Qt widgets, the table model, delegates, column auto-fit, settings, menus and dialogs, and all Streamlit page code. These are UI only; the filter and option lists are lifted out of them as pure functions.
- Reading the spreadsheet (`pd.read_excel`) and the column renaming. The input is a sequence of already-mapped cells, and a non-text cell is represented by its `str()` text.
- Numeric coercion of `book_id`. It is an integer or missing, and missing makes the import fail.
- Ingest.InsertBooks: `book_id` is bound to a 64-bit SQLite INTEGER, and a value outside that range makes the insert raise `OverflowError`; the model's catalog numbers are unbounded integers, so that failure is not modelled.
- Cleaning.CellText: `Blank` stands for every cell `read_excel` yields as NaN, which by default includes text cells such as "NA", "N/A", "NULL", "null", "None", "n/a", "#N/A", "NaN" and "<NA>". How `str()` renders a non-text cell depends on the column's type (a number in a column with blanks renders as "320.0"); the model takes that rendered text as given.
- The SQLite engine itself: transactions, commit timing, and the partially written database after a failed import. The dimension rows committed before the failing insert are not modelled; the result is the error only.
- The `meta` table, which `create_schema` creates and drops but the pipeline never reads or writes.
- Text.ContainsIgnoringCase: matches the query as a literal substring, while `str.contains` reads it as a regular expression. A query with regex metacharacters is therefore not modelled faithfully.
- Text.LowerChar: lower-cases ASCII letters only; Unicode case folding is not modelled.
- Filter.ApplyFilters has no branch for the desktop's `if not df.empty` guard, because filtering an empty view yields the same empty result.
- `pd.isna` on float names inside `get_id` cannot arise after cleaning, which leaves only strings or missing values.
- CSV export, `main.py`, `build_installer.py` and `kaveh_books1 - pic.py` are not part of this model.
