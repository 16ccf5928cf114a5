/** The filter panel of both front ends, lifted out of the UI code: the
    option list offered for each dimension, and the evaluation of the four
    dimension selections and the title search over the full read view. */
module Filter {
  import opened Wrappers
  import opened Text
  import opened StringOrder
  import opened Store
  import opened View

  /** The "(همه)" ("all") entry that heads every option list and means
      "no constraint on this dimension". */
  const All: string := "(\U{0647}\U{0645}\U{0647})"

  // ---------------------------------------------------------------------
  // Option lists

  /** `series.dropna()` on one name column of the view, in row order. */
  function Values(rows: seq<ViewRow>, d: Dim): (vals: seq<string>)
    ensures forall n :: n in vals <==> exists i :: 0 <= i < |rows| && Name(rows[i], d) == Some(n)
    decreases |rows|
  {
    if |rows| == 0 then []
    else
      var rest := Values(rows[1..], d);
      assert forall n :: (exists i :: 0 <= i < |rows[1..]| && Name(rows[1..][i], d) == Some(n))
                     <==> (exists i :: 1 <= i < |rows| && Name(rows[i], d) == Some(n)) by {
        forall n ensures (exists i :: 0 <= i < |rows[1..]| && Name(rows[1..][i], d) == Some(n))
                     <==> (exists i :: 1 <= i < |rows| && Name(rows[i], d) == Some(n)) {
          if exists i :: 1 <= i < |rows| && Name(rows[i], d) == Some(n) {
            var i :| 1 <= i < |rows| && Name(rows[i], d) == Some(n);
            assert rows[1..][i - 1] == rows[i];
          }
        }
      }
      match Name(rows[0], d)
      case None => rest
      case Some(n) => [n] + rest
  }

  /** The option list of one dimension: the "all" entry, then the distinct
      names present in the full view, in ascending order. Every name offered
      is present in some row, and every present name is offered once. */
  function Options(rows: seq<ViewRow>, d: Dim): (opts: seq<string>)
    ensures |opts| >= 1 && opts[0] == All
    ensures StrictlySorted(opts[1..])
    ensures forall n :: n in opts[1..] <==> exists i :: 0 <= i < |rows| && Name(rows[i], d) == Some(n)
  {
    var vals := SortedDistinct(Values(rows, d));
    assert ([All] + vals)[1..] == vals;
    [All] + vals
  }

  /** The desktop `_update_filters`, which special-cases an empty view. */
  function DesktopOptions(rows: seq<ViewRow>, d: Dim): seq<string> {
    if |rows| == 0 then [All] else Options(rows, d)
  }

  /** The desktop's empty-view branch offers what the general rule offers, so
      both front ends show the same lists. */
  lemma DesktopOptionsAgree(rows: seq<ViewRow>, d: Dim)
    ensures DesktopOptions(rows, d) == Options(rows, d)
  {
  }

  // ---------------------------------------------------------------------
  // Filtering

  /** Row selection that keeps the input order (a pandas boolean mask). */
  function Where(rows: seq<ViewRow>, p: ViewRow -> bool): (r: seq<ViewRow>)
    ensures forall x :: x in r <==> x in rows && p(x)
    ensures |r| <= |rows|
    decreases |rows|
  {
    if |rows| == 0 then []
    else if p(rows[0]) then [rows[0]] + Where(rows[1..], p)
    else Where(rows[1..], p)
  }

  /** `a` can be obtained from `b` by deleting rows: the order of the kept rows is unchanged. */
  predicate IsSubsequence(a: seq<ViewRow>, b: seq<ViewRow>)
    decreases |b|
  {
    if |a| == 0 then true
    else if |b| == 0 then false
    else (a[0] == b[0] && IsSubsequence(a[1..], b[1..])) || IsSubsequence(a, b[1..])
  }

  /** The user's choices: one entry per dimension combo box, and the search text. */
  datatype Selection = Selection(brand: string, machineType: string, model: string, language: string, query: string)
  {
    function Get(d: Dim): string {
      match d
      case Brand => brand
      case MachineType => machineType
      case Model => model
      case Language => language
    }
  }

  /** Whether a combo-box entry constrains its dimension. The desktop skips
      an empty entry as well as "all"; the web app skips only "all". */
  predicate Constrains(v: Variant, f: string) {
    f != All && (v == Web || f != "")
  }

  /** The search text as used: the desktop strips it, the web app does not. */
  function Query(v: Variant, sel: Selection): string {
    if v == Desktop then Strip(sel.query) else sel.query
  }

  /** One `df = df[df[col] == f]` step, skipped when the entry does not constrain. */
  function Narrow(v: Variant, rows: seq<ViewRow>, d: Dim, f: string): seq<ViewRow> {
    if Constrains(v, f) then Where(rows, (r: ViewRow) => Name(r, d) == Some(f)) else rows
  }

  /** The title search step: case-insensitive literal containment. */
  function Search(rows: seq<ViewRow>, q: string): seq<ViewRow> {
    if q != "" then Where(rows, (r: ViewRow) => ContainsIgnoringCase(r.title, q)) else rows
  }

  /** What the panel shows: the kept rows and the result count label. */
  datatype Shown = Shown(rows: seq<ViewRow>, count: nat)

  /** `apply_filters` (desktop) and the inline filter block (web): narrow by
      brand, machine type, model and language in that order, then search. */
  function ApplyFilters(v: Variant, rows: seq<ViewRow>, sel: Selection): Shown {
    var r1 := Narrow(v, rows, Brand, sel.brand);
    var r2 := Narrow(v, r1, MachineType, sel.machineType);
    var r3 := Narrow(v, r2, Model, sel.model);
    var r4 := Narrow(v, r3, Language, sel.language);
    var out := Search(r4, Query(v, sel));
    Shown(out, |out|)
  }

  /** `clear_filters`: every combo box back to "all", search text emptied. */
  function ClearFilters(): (sel: Selection)
    ensures forall d :: sel.Get(d) == All
    ensures sel.query == ""
  {
    Selection(All, All, All, All, "")
  }

  /** The reference meaning of a selection, one predicate per row: every
      constraining entry equals the row's name exactly (an absent name matches
      nothing), and a non-empty search text occurs in the title ignoring case. */
  predicate Matches(v: Variant, sel: Selection, r: ViewRow) {
    && (forall d :: Constrains(v, sel.Get(d)) ==> Name(r, d) == Some(sel.Get(d)))
    && (Query(v, sel) != "" ==> ContainsIgnoringCase(r.title, Query(v, sel)))
  }

  // ---------------------------------------------------------------------
  // Properties of the filter

  /** Selecting rows keeps their order: the result is a subsequence. */
  lemma {:induction false} WhereIsSubsequence(rows: seq<ViewRow>, p: ViewRow -> bool)
    ensures IsSubsequence(Where(rows, p), rows)
    decreases |rows|
  {
    if |rows| > 0 {
      var w := Where(rows[1..], p);
      WhereIsSubsequence(rows[1..], p);
      if p(rows[0]) {
        assert ([rows[0]] + w)[0] == rows[0] && ([rows[0]] + w)[1..] == w;
      }
    }
  }

  /** Selecting rows commutes with concatenation: what is kept of a prefix
      comes before what is kept of the rest. */
  lemma {:induction false} WhereConcat(a: seq<ViewRow>, b: seq<ViewRow>, p: ViewRow -> bool)
    ensures Where(a + b, p) == Where(a, p) + Where(b, p)
    decreases |a|
  {
    if |a| == 0 {
      assert a + b == b;
    } else {
      assert (a + b)[0] == a[0] && (a + b)[1..] == a[1..] + b;
      WhereConcat(a[1..], b, p);
    }
  }

  lemma NarrowConcat(v: Variant, a: seq<ViewRow>, b: seq<ViewRow>, d: Dim, f: string)
    ensures Narrow(v, a + b, d, f) == Narrow(v, a, d, f) + Narrow(v, b, d, f)
  {
    if Constrains(v, f) {
      WhereConcat(a, b, (r: ViewRow) => Name(r, d) == Some(f));
    }
  }

  lemma SearchConcat(a: seq<ViewRow>, b: seq<ViewRow>, q: string)
    ensures Search(a + b, q) == Search(a, q) + Search(b, q)
  {
    if q != "" {
      WhereConcat(a, b, (r: ViewRow) => ContainsIgnoringCase(r.title, q));
    }
  }

  /** Filtering a concatenation is the concatenation of the filtered parts. */
  lemma FilterConcat(v: Variant, a: seq<ViewRow>, b: seq<ViewRow>, sel: Selection)
    ensures ApplyFilters(v, a + b, sel).rows == ApplyFilters(v, a, sel).rows + ApplyFilters(v, b, sel).rows
  {
    NarrowConcat(v, a, b, Brand, sel.brand);
    var a1, b1 := Narrow(v, a, Brand, sel.brand), Narrow(v, b, Brand, sel.brand);
    NarrowConcat(v, a1, b1, MachineType, sel.machineType);
    var a2, b2 := Narrow(v, a1, MachineType, sel.machineType), Narrow(v, b1, MachineType, sel.machineType);
    NarrowConcat(v, a2, b2, Model, sel.model);
    var a3, b3 := Narrow(v, a2, Model, sel.model), Narrow(v, b2, Model, sel.model);
    NarrowConcat(v, a3, b3, Language, sel.language);
    var a4, b4 := Narrow(v, a3, Language, sel.language), Narrow(v, b3, Language, sel.language);
    SearchConcat(a4, b4, Query(v, sel));
  }

  /** A selection step on at most one row keeps it exactly when it is there and passes. */
  lemma WhereOne(x: ViewRow, ok: bool, p: ViewRow -> bool)
    ensures Where(if ok then [x] else [], p) == if ok && p(x) then [x] else []
  {
    if ok {
      assert [x][1..] == [];
    }
  }

  lemma NarrowOne(v: Variant, x: ViewRow, ok: bool, d: Dim, f: string)
    ensures Narrow(v, if ok then [x] else [], d, f)
            == if ok && (Constrains(v, f) ==> Name(x, d) == Some(f)) then [x] else []
  {
    if Constrains(v, f) {
      WhereOne(x, ok, (r: ViewRow) => Name(r, d) == Some(f));
    }
  }

  lemma SearchOne(x: ViewRow, ok: bool, q: string)
    ensures Search(if ok then [x] else [], q)
            == if ok && (q != "" ==> ContainsIgnoringCase(x.title, q)) then [x] else []
  {
    if q != "" {
      WhereOne(x, ok, (r: ViewRow) => ContainsIgnoringCase(r.title, q));
    }
  }

  /** `Matches` with its quantifier over the four dimensions written out. */
  lemma MatchesWrittenOut(v: Variant, sel: Selection, x: ViewRow)
    ensures Matches(v, sel, x) <==>
      && (Constrains(v, sel.brand) ==> Name(x, Brand) == Some(sel.brand))
      && (Constrains(v, sel.machineType) ==> Name(x, MachineType) == Some(sel.machineType))
      && (Constrains(v, sel.model) ==> Name(x, Model) == Some(sel.model))
      && (Constrains(v, sel.language) ==> Name(x, Language) == Some(sel.language))
      && (Query(v, sel) != "" ==> ContainsIgnoringCase(x.title, Query(v, sel)))
  {
    assert sel.Get(Brand) == sel.brand && sel.Get(MachineType) == sel.machineType;
    assert sel.Get(Model) == sel.model && sel.Get(Language) == sel.language;
    if && (Constrains(v, sel.brand) ==> Name(x, Brand) == Some(sel.brand))
       && (Constrains(v, sel.machineType) ==> Name(x, MachineType) == Some(sel.machineType))
       && (Constrains(v, sel.model) ==> Name(x, Model) == Some(sel.model))
       && (Constrains(v, sel.language) ==> Name(x, Language) == Some(sel.language))
    {
      forall d | Constrains(v, sel.Get(d)) ensures Name(x, d) == Some(sel.Get(d)) {
        match d
        case Brand =>
        case MachineType =>
        case Model =>
        case Language =>
      }
    }
  }

  /** On a single row the filter keeps the row exactly when it matches. */
  lemma FilterSingleton(v: Variant, x: ViewRow, sel: Selection)
    ensures ApplyFilters(v, [x], sel).rows == if Matches(v, sel, x) then [x] else []
  {
    var ok1 := Constrains(v, sel.brand) ==> Name(x, Brand) == Some(sel.brand);
    NarrowOne(v, x, true, Brand, sel.brand);
    var ok2 := ok1 && (Constrains(v, sel.machineType) ==> Name(x, MachineType) == Some(sel.machineType));
    NarrowOne(v, x, ok1, MachineType, sel.machineType);
    var ok3 := ok2 && (Constrains(v, sel.model) ==> Name(x, Model) == Some(sel.model));
    NarrowOne(v, x, ok2, Model, sel.model);
    var ok4 := ok3 && (Constrains(v, sel.language) ==> Name(x, Language) == Some(sel.language));
    NarrowOne(v, x, ok3, Language, sel.language);
    SearchOne(x, ok4, Query(v, sel));
    MatchesWrittenOut(v, sel, x);
  }

  /** The sequential narrowing is the reference conjunction: the filter keeps
      exactly the matching rows, in their input order. */
  lemma {:induction false} FilterIsConjunction(v: Variant, rows: seq<ViewRow>, sel: Selection)
    ensures ApplyFilters(v, rows, sel).rows == Where(rows, (r: ViewRow) => Matches(v, sel, r))
    decreases |rows|
  {
    if |rows| > 0 {
      assert rows == [rows[0]] + rows[1..];
      FilterConcat(v, [rows[0]], rows[1..], sel);
      FilterSingleton(v, rows[0], sel);
      FilterIsConjunction(v, rows[1..], sel);
    }
  }

  /** What the panel shows: a row is kept iff it is an input row that
      matches the selection; the kept rows keep their input order; and the
      count label is the number of rows shown. */
  lemma FilterCorrect(v: Variant, rows: seq<ViewRow>, sel: Selection)
    ensures var out := ApplyFilters(v, rows, sel);
      && (forall x :: x in out.rows <==> x in rows && Matches(v, sel, x))
      && IsSubsequence(out.rows, rows)
      && out.count == |out.rows| <= |rows|
  {
    FilterIsConjunction(v, rows, sel);
    WhereIsSubsequence(rows, (r: ViewRow) => Matches(v, sel, r));
  }

  lemma {:induction false} WhereAll(rows: seq<ViewRow>, p: ViewRow -> bool)
    requires forall x :: x in rows ==> p(x)
    ensures Where(rows, p) == rows
    decreases |rows|
  {
    if |rows| > 0 {
      WhereAll(rows[1..], p);
      assert rows == [rows[0]] + rows[1..];
    }
  }

  /** "All" everywhere and an empty search show the whole view. */
  lemma ClearFiltersShowsAll(v: Variant, rows: seq<ViewRow>)
    ensures ApplyFilters(v, rows, ClearFilters()).rows == rows
    ensures ApplyFilters(v, rows, ClearFilters()).count == |rows|
  {
    NoQuery(v, ClearFilters());
  }

  /** Filtering the shown rows again with the same selection changes nothing. */
  lemma FilterIdempotent(v: Variant, rows: seq<ViewRow>, sel: Selection)
    ensures ApplyFilters(v, ApplyFilters(v, rows, sel).rows, sel) == ApplyFilters(v, rows, sel)
  {
    var out := ApplyFilters(v, rows, sel).rows;
    FilterCorrect(v, rows, sel);
    FilterIsConjunction(v, out, sel);
    WhereAll(out, (r: ViewRow) => Matches(v, sel, r));
  }

  /** Filtering keeps rows in ascending catalog-number order. */
  lemma {:induction false} SubsequenceKeepsOrder(a: seq<ViewRow>, b: seq<ViewRow>)
    requires IsSubsequence(a, b) && SortedByBookId(b)
    ensures SortedByBookId(a)
    ensures forall x :: x in a ==> x in b
    decreases |b|
  {
    if |a| > 0 {
      assert SortedByBookId(b[1..]) by {
        forall i, j | 0 <= i < j < |b[1..]| ensures b[1..][i].bookId <= b[1..][j].bookId {
          assert b[1..][i] == b[i + 1] && b[1..][j] == b[j + 1];
        }
      }
      if a[0] == b[0] && IsSubsequence(a[1..], b[1..]) {
        SubsequenceKeepsOrder(a[1..], b[1..]);
        forall x | x in a ensures x in b {
          if x != a[0] {
            assert x in a[1..];
          }
        }
        forall i, j | 0 <= i < j < |a| ensures a[i].bookId <= a[j].bookId {
          if i == 0 {
            assert a[j] == a[1..][j - 1] && a[j] in b[1..];
            var k :| 0 <= k < |b[1..]| && b[1..][k] == a[j];
            assert b[k + 1] == a[j];
          } else {
            assert a[i] == a[1..][i - 1] && a[j] == a[1..][j - 1];
          }
        }
      } else {
        SubsequenceKeepsOrder(a, b[1..]);
      }
    }
  }

  lemma FilterKeepsSorting(v: Variant, rows: seq<ViewRow>, sel: Selection)
    requires SortedByBookId(rows)
    ensures SortedByBookId(ApplyFilters(v, rows, sel).rows)
  {
    FilterCorrect(v, rows, sel);
    SubsequenceKeepsOrder(ApplyFilters(v, rows, sel).rows, rows);
  }

  /** The desktop treats an empty combo entry like "all" and a whitespace-only
      search like no search, so such a selection shows the whole view. */
  lemma DesktopBlankSelectionShowsAll(rows: seq<ViewRow>, sel: Selection)
    requires forall d :: sel.Get(d) == All || sel.Get(d) == ""
    requires AllSpace(sel.query)
    ensures ApplyFilters(Desktop, rows, sel).rows == rows
  {
    StripEmptyIff(sel.query);
    assert sel.Get(Brand) == sel.brand && sel.Get(MachineType) == sel.machineType;
    assert sel.Get(Model) == sel.model && sel.Get(Language) == sel.language;
  }

  /** The web app does not strip the search text: a single space is a real
      search there, while the desktop ignores it. */
  lemma BlankQueryVariants()
    ensures var row := ViewRow(1, "ab", None, None, None, Some("English"), None, None);
      var sel := Selection(All, All, All, All, " ");
      && ApplyFilters(Desktop, [row], sel).rows == [row]
      && ApplyFilters(Web, [row], sel).rows == []
  {
    var row := ViewRow(1, "ab", None, None, None, Some("English"), None, None);
    var sel := Selection(All, All, All, All, " ");
    assert Strip(" ") == "" by { StripEmptyIff(" "); }
    FilterIsConjunction(Web, [row], sel);
    assert !Contains(Lower("ab"), Lower(" ")) by {
      assert Lower("ab") == "ab" && Lower(" ") == " ";
      forall i | 0 <= i <= 1 ensures !OccursAt("ab", " ", i) {
        assert "ab"[i..i + 1] == ["ab"[i]];
      }
    }
    assert !Matches(Web, sel, row);
  }

  /** A selection that constrains only dimension `d`, to the entry `n`. */
  function Only(d: Dim, n: string): (sel: Selection)
    ensures sel.Get(d) == n && sel.query == ""
    ensures forall e :: e != d ==> sel.Get(e) == All
  {
    match d
    case Brand => Selection(n, All, All, All, "")
    case MachineType => Selection(All, n, All, All, "")
    case Model => Selection(All, All, n, All, "")
    case Language => Selection(All, All, All, n, "")
  }

  /** A selection without search text searches nothing on either front end. */
  lemma NoQuery(v: Variant, sel: Selection)
    requires sel.query == ""
    ensures Query(v, sel) == ""
  {
    if v == Desktop {
      StripEmptyIff("");
    }
  }

  /** Under a one-dimension selection a row matches exactly when it carries the chosen name. */
  lemma MatchesOnly(v: Variant, d: Dim, n: string, r: ViewRow)
    requires Constrains(v, n)
    ensures Matches(v, Only(d, n), r) <==> Name(r, d) == Some(n)
  {
    var sel := Only(d, n);
    NoQuery(v, sel);
    assert forall e :: Constrains(v, sel.Get(e)) ==> e == d;
  }

  /** Picking one offered name in one combo box (all others on "all", no
      search) shows exactly the rows carrying that name, and at least one. */
  lemma PickOption(v: Variant, rows: seq<ViewRow>, d: Dim, n: string)
    requires n in Options(rows, d)[1..] && Constrains(v, n)
    ensures var out := ApplyFilters(v, rows, Only(d, n)).rows;
      && out == Where(rows, (r: ViewRow) => Name(r, d) == Some(n))
      && |out| > 0
  {
    var sel := Only(d, n);
    forall r ensures Matches(v, sel, r) <==> Name(r, d) == Some(n) {
      MatchesOnly(v, d, n, r);
    }
    FilterIsConjunction(v, rows, sel);
    WhereExt(rows, (r: ViewRow) => Matches(v, sel, r), (r: ViewRow) => Name(r, d) == Some(n));
    var i :| 0 <= i < |rows| && Name(rows[i], d) == Some(n);
    assert rows[i] in Where(rows, (r: ViewRow) => Name(r, d) == Some(n));
  }

  lemma {:induction false} WhereExt(rows: seq<ViewRow>, p: ViewRow -> bool, q: ViewRow -> bool)
    requires forall x :: p(x) == q(x)
    ensures Where(rows, p) == Where(rows, q)
    decreases |rows|
  {
    if |rows| > 0 {
      WhereExt(rows[1..], p, q);
    }
  }

  /** A stored name equal to the "all" entry is offered twice and cannot be
      picked out: choosing it removes the constraint instead. */
  lemma NameEqualToAllCannotBePicked(v: Variant, rows: seq<ViewRow>, d: Dim)
    requires exists i :: 0 <= i < |rows| && Name(rows[i], d) == Some(All)
    ensures All in Options(rows, d)[1..]
    ensures ApplyFilters(v, rows, Only(d, All)).rows == rows
  {
    NoQuery(v, Only(d, All));
    forall e ensures Only(d, All).Get(e) == All {
    }
  }
}
